/**
 cJSON_Compare on nodes in memory, where an item that is met again is equal to
 itself without a look inside.
 */
module JsonIdentity {
  import opened Bytes
  import opened JsonText
  import opened JsonRoundTrip
  import opened JsonCompare

  // A node of a tree in memory: its value, its place in the tree, and the
  // addresses of the tree's nodes. Trees may share nodes.
  datatype Node = Node(value: Json, path: seq<nat>, address: seq<nat> -> int)

  function Child(n: Node, i: nat): (c: Node)
    requires (n.value.Array? && i < |n.value.items|) || (n.value.Object? && i < |n.value.members|)
    ensures Height(c.value) < Height(n.value)
  {
    if n.value.Array? then
      ItemHeight(n.value.items, i);
      Node(n.value.items[i], n.path + [i], n.address)
    else
      MemberHeight(n.value.members, i);
      Node(n.value.members[i].value, n.path + [i], n.address)
  }

  predicate SameType(a: Json, b: Json) {
    match (a, b)
    case (Null, Null) => true
    case (False, False) => true
    case (True, True) => true
    case (Number(_), Number(_)) => true
    case (Raw(_), Raw(_)) => true
    case (String(_), String(_)) => true
    case (Array(_), Array(_)) => true
    case (Object(_), Object(_)) => true
    case _ => false
  }

  // cJSON_Compare on nodes: identical ones are equal without a look inside.
  predicate CompareNodes(a: Node, b: Node, cs: bool, num: seq<byte> -> Double)
    decreases Height(a.value) + Height(b.value), 1
  {
    SameType(a.value, b.value) &&
    (a.address(a.path) == b.address(b.path) ||
     match a.value
     case Array(s) =>
       |s| == |b.value.items| && forall i :: 0 <= i < |s| ==> CompareNodes(Child(a, i), Child(b, i), cs, num)
     case Object(_) => NodesOneWay(a, b, cs, num) && NodesOneWay(b, a, cs, num)
     case _ => Compare(a.value, b.value, cs, num))
  }

  predicate NodesOneWay(a: Node, b: Node, cs: bool, num: seq<byte> -> Double)
    requires a.value.Object? && b.value.Object?
    decreases Height(a.value) + Height(b.value), 0
  {
    forall i :: 0 <= i < |a.value.members| ==>
      var j := FindIndex(b.value.members, a.value.members[i].key, cs);
      j.Some? && CompareNodes(Child(a, i), Child(b, j.value), cs, num)
  }

  function Descend(v: Json, path: seq<nat>): Option<Json>
    decreases |path|
  {
    if path == [] then Some(v)
    else if v.Array? && path[0] < |v.items| then Descend(v.items[path[0]], path[1..])
    else if v.Object? && path[0] < |v.members| then Descend(v.members[path[0]].value, path[1..])
    else None
  }

  // One memory: what stands at one address is one value.
  ghost predicate OneMemory(a: Node, b: Node) {
    forall u, v :: Descend(a.value, u).Some? && Descend(b.value, v).Some? ==>
      (a.address(a.path + u) == b.address(b.path + v) ==> Descend(a.value, u) == Descend(b.value, v))
  }

  lemma ChildrenShare(a: Node, b: Node, i: nat, j: nat)
    requires OneMemory(a, b)
    requires (a.value.Array? && i < |a.value.items|) || (a.value.Object? && i < |a.value.members|)
    requires (b.value.Array? && j < |b.value.items|) || (b.value.Object? && j < |b.value.members|)
    ensures OneMemory(Child(a, i), Child(b, j))
  {
    forall u, v | Descend(Child(a, i).value, u).Some? && Descend(Child(b, j).value, v).Some?
                  && a.address(Child(a, i).path + u) == b.address(Child(b, j).path + v)
      ensures Descend(Child(a, i).value, u) == Descend(Child(b, j).value, v)
    {
      Assoc(a.path, [i], u);
      Assoc(b.path, [j], v);
      assert ([i] + u)[1..] == u && ([j] + v)[1..] == v;
      assert Descend(a.value, [i] + u) == Descend(Child(a, i).value, u);
      assert Descend(b.value, [j] + v) == Descend(Child(b, j).value, v);
    }
  }

  // An item always compares equal to itself, whatever it holds.
  lemma CompareIdentical(a: Node, b: Node, cs: bool, num: seq<byte> -> Double)
    requires OneMemory(a, b) && a.address(a.path) == b.address(b.path)
    ensures CompareNodes(a, b, cs, num)
  {
    assert a.path + [] == a.path && b.path + [] == b.path;
    assert Descend(a.value, []) == Descend(b.value, []);
  }

  // The nodes that the trees share have one meaning each.
  ghost predicate Settled(a: Node, b: Node, cs: bool, num: seq<byte> -> Double) {
    forall u, v :: Descend(a.value, u).Some? && Descend(b.value, v).Some? ==>
      (a.address(a.path + u) == b.address(b.path + v) ==>
        Descend(a.value, u) == Descend(b.value, v) && Coherent(Descend(a.value, u).value, cs, num))
  }

  // So it is when the trees share nothing, and when they are coherent.
  lemma {:induction false} CoherentBelow(v: Json, u: seq<nat>, cs: bool, num: seq<byte> -> Double)
    requires Coherent(v, cs, num) && Descend(v, u).Some?
    ensures Coherent(Descend(v, u).value, cs, num)
    decreases |u|
  {
    if u != [] {
      CoherentBelow(if v.Array? then v.items[u[0]] else v.members[u[0]].value, u[1..], cs, num);
    }
  }

  lemma CoherentSettled(a: Node, b: Node, cs: bool, num: seq<byte> -> Double)
    requires OneMemory(a, b) && Coherent(a.value, cs, num)
    ensures Settled(a, b, cs, num)
  {
    hide Coherent, Descend;
    forall u, v | Descend(a.value, u).Some? && Descend(b.value, v).Some?
                  && a.address(a.path + u) == b.address(b.path + v)
      ensures Descend(a.value, u) == Descend(b.value, v) && Coherent(Descend(a.value, u).value, cs, num)
    {
      CoherentBelow(a.value, u, cs, num);
    }
  }

  lemma ChildrenSettled(a: Node, b: Node, i: nat, j: nat, cs: bool, num: seq<byte> -> Double)
    requires Settled(a, b, cs, num)
    requires (a.value.Array? && i < |a.value.items|) || (a.value.Object? && i < |a.value.members|)
    requires (b.value.Array? && j < |b.value.items|) || (b.value.Object? && j < |b.value.members|)
    ensures Settled(Child(a, i), Child(b, j), cs, num)
  {
    hide Coherent;
    forall u, v | Descend(Child(a, i).value, u).Some? && Descend(Child(b, j).value, v).Some?
                  && a.address(Child(a, i).path + u) == b.address(Child(b, j).path + v)
      ensures Descend(Child(a, i).value, u) == Descend(Child(b, j).value, v)
      ensures Coherent(Descend(Child(a, i).value, u).value, cs, num)
    {
      Assoc(a.path, [i], u);
      Assoc(b.path, [j], v);
      assert ([i] + u)[1..] == u && ([j] + v)[1..] == v;
      assert Descend(a.value, [i] + u) == Descend(Child(a, i).value, u);
      assert Descend(b.value, [j] + v) == Descend(Child(b, j).value, v);
    }
  }

  lemma SettledTurned(a: Node, b: Node, cs: bool, num: seq<byte> -> Double)
    requires Settled(a, b, cs, num)
    ensures Settled(b, a, cs, num)
  {
    hide Descend, Coherent;
  }

  // Only the values count when the nodes that the trees share are coherent.
  lemma {:induction false} CompareNodesMeaning(a: Node, b: Node, cs: bool, num: seq<byte> -> Double)
    requires Settled(a, b, cs, num)
    ensures CompareNodes(a, b, cs, num) <==> Compare(a.value, b.value, cs, num)
    decreases Height(a.value) + Height(b.value), 1
  {
    hide Settled;
    if SameType(a.value, b.value) {
      if a.address(a.path) == b.address(b.path) {
        SharedRoot(a, b, cs, num);
      } else if a.value.Array? {
        NodeItems(a, b, cs, num);
      } else if a.value.Object? {
        SettledTurned(a, b, cs, num);
        NodeMembers(a, b, cs, num);
        NodeMembers(b, a, cs, num);
      }
    }
  }

  lemma SharedRoot(a: Node, b: Node, cs: bool, num: seq<byte> -> Double)
    requires Settled(a, b, cs, num) && a.address(a.path) == b.address(b.path)
    ensures Compare(a.value, b.value, cs, num)
  {
    hide Compare, Coherent;
    assert a.path + [] == a.path && b.path + [] == b.path;
    assert Descend(a.value, []) == Descend(b.value, []);
    CompareMeaning(a.value, a.value, cs, num);
  }

  lemma {:induction false} NodeItems(a: Node, b: Node, cs: bool, num: seq<byte> -> Double)
    requires Settled(a, b, cs, num) && a.value.Array? && b.value.Array?
    ensures Compare(a.value, b.value, cs, num) <==>
      |a.value.items| == |b.value.items| &&
      forall i :: 0 <= i < |a.value.items| ==> CompareNodes(Child(a, i), Child(b, i), cs, num)
    decreases Height(a.value) + Height(b.value), 0
  {
    hide Settled, CompareNodes;
    if |a.value.items| == |b.value.items| {
      forall i | 0 <= i < |a.value.items|
        ensures CompareNodes(Child(a, i), Child(b, i), cs, num)
          <==> Compare(a.value.items[i], b.value.items[i], cs, num)
      {
        ChildrenSettled(a, b, i, i, cs, num);
        CompareNodesMeaning(Child(a, i), Child(b, i), cs, num);
      }
    }
  }

  lemma {:induction false} NodeMembers(a: Node, b: Node, cs: bool, num: seq<byte> -> Double)
    requires Settled(a, b, cs, num) && a.value.Object? && b.value.Object?
    ensures NodesOneWay(a, b, cs, num) <==> CompareOneWay(a.value.members, b.value.members, cs, num)
    decreases Height(a.value) + Height(b.value), 0
  {
    hide Settled, CompareNodes, Compare, FindIndex;
    var s, t := a.value.members, b.value.members;
    forall i | 0 <= i < |s|
      ensures var j, found := FindIndex(t, s[i].key, cs), Find(t, s[i].key, cs);
        (j.Some? <==> found.Some?) &&
        (j.Some? ==>
          (CompareNodes(Child(a, i), Child(b, j.value), cs, num) <==> Compare(s[i].value, found.value, cs, num)))
    {
      var j := FindIndex(t, s[i].key, cs);
      if j.Some? {
        ChildrenSettled(a, b, i, j.value, cs, num);
        CompareNodesMeaning(Child(a, i), Child(b, j.value), cs, num);
      }
    }
  }

  // Whatever nodes they share: identical ones can only make more values equal.
  lemma {:induction false} IdentityOnlyAdds(a: Node, b: Node, cs: bool, num: seq<byte> -> Double)
    requires OneMemory(a, b) && Compare(a.value, b.value, cs, num)
    ensures CompareNodes(a, b, cs, num)
    decreases Height(a.value) + Height(b.value), 1
  {
    hide OneMemory;
    if a.address(a.path) == b.address(b.path) {
      CompareIdentical(a, b, cs, num);
    } else if a.value.Array? {
      forall i | 0 <= i < |a.value.items|
        ensures CompareNodes(Child(a, i), Child(b, i), cs, num)
      {
        ChildrenShare(a, b, i, i);
        IdentityOnlyAdds(Child(a, i), Child(b, i), cs, num);
      }
    } else if a.value.Object? {
      Turned(a, b);
      MembersOnlyAdd(a, b, cs, num);
      MembersOnlyAdd(b, a, cs, num);
    }
  }

  lemma Turned(a: Node, b: Node)
    requires OneMemory(a, b)
    ensures OneMemory(b, a)
  {
    hide Descend;
  }

  lemma {:induction false} MembersOnlyAdd(a: Node, b: Node, cs: bool, num: seq<byte> -> Double)
    requires OneMemory(a, b) && a.value.Object? && b.value.Object?
    requires CompareOneWay(a.value.members, b.value.members, cs, num)
    ensures NodesOneWay(a, b, cs, num)
    decreases Height(a.value) + Height(b.value), 0
  {
    hide OneMemory, CompareNodes, Compare, FindIndex;
    var s, t := a.value.members, b.value.members;
    forall i | 0 <= i < |s|
      ensures var j := FindIndex(t, s[i].key, cs); j.Some? && CompareNodes(Child(a, i), Child(b, j.value), cs, num)
    {
      var j, found := FindIndex(t, s[i].key, cs), Find(t, s[i].key, cs);
      assert found.Some? && Compare(s[i].value, found.value, cs, num);
      ChildrenShare(a, b, i, j.value);
      IdentityOnlyAdds(Child(a, i), Child(b, j.value), cs, num);
    }
  }
}
