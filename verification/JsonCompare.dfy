/**
 cJSON_Compare: two values are equal when each finds its members in the other.
 The meaning of a value, objects being maps, characterises it completely.
 */
module JsonCompare {
  import opened Bytes
  import opened JsonText
  import opened JsonRoundTrip

  // valuedouble: NaN is the only number that differs from itself.
  datatype Double = NaN | Finite(r: real) | Infinite(positive: bool)

  predicate SameDouble(a: Double, b: Double) {
    !a.NaN? && a == b
  }

  function Lower(b: byte): byte {
    if 65 <= b <= 90 then b + 32 else b
  }

  // Keys that a search does not tell apart have the same fold.
  function Fold(key: seq<byte>, caseSensitive: bool): seq<byte> {
    if caseSensitive then key else seq(|key|, i requires 0 <= i < |key| => Lower(key[i]))
  }

  predicate Matches(m: Member, name: seq<byte>, caseSensitive: bool) {
    Fold(m.key, caseSensitive) == Fold(name, caseSensitive)
  }

  // What a search does not tell apart: the same bytes, or in the other mode as
  // many, each the same or the same letter of the alphabet.
  predicate SameKey(a: seq<byte>, b: seq<byte>, caseSensitive: bool) {
    if caseSensitive then a == b else |a| == |b| && forall i :: 0 <= i < |a| ==> SameLetter(a[i], b[i])
  }

  predicate SameLetter(x: byte, y: byte) {
    x == y || (65 <= x <= 90 && 97 <= y <= 122 && y == x + 32) || (97 <= x <= 122 && 65 <= y <= 90 && x == y + 32)
  }

  lemma FoldExactly(a: seq<byte>, b: seq<byte>, caseSensitive: bool)
    ensures Fold(a, caseSensitive) == Fold(b, caseSensitive) <==> SameKey(a, b, caseSensitive)
  {
    if !caseSensitive && Fold(a, false) == Fold(b, false) {
      forall i | 0 <= i < |a|
        ensures SameLetter(a[i], b[i])
      {
        assert Fold(a, false)[i] == Fold(b, false)[i];
      }
    }
  }

  lemma SameKeyTurned(a: seq<byte>, b: seq<byte>, cs: bool)
    ensures SameKey(a, b, cs) <==> SameKey(b, a, cs)
  {
  }

  predicate IsFirst(members: seq<Member>, i: nat, name: seq<byte>, caseSensitive: bool) {
    && i < |members| && SameKey(members[i].key, name, caseSensitive)
    && forall j :: 0 <= j < i ==> !SameKey(members[j].key, name, caseSensitive)
  }

  // The index at which get_object_item stops.
  function FindIndex(members: seq<Member>, name: seq<byte>, caseSensitive: bool): (i: Option<nat>)
    ensures i.Some? ==> i.value < |members|
  {
    if members == [] then None
    else if Matches(members[0], name, caseSensitive) then Some(0)
    else
      var i := FindIndex(members[1..], name, caseSensitive);
      if i.None? then None else Some(i.value + 1)
  }

  // get_object_item: the first member whose key matches.
  function Find(members: seq<Member>, name: seq<byte>, caseSensitive: bool): Option<Json> {
    var i := FindIndex(members, name, caseSensitive);
    if i.None? then None else Some(members[i.value].value)
  }

  // The search succeeds exactly when some key matches, with the first such.
  lemma {:induction false} FindFirst(members: seq<Member>, name: seq<byte>, caseSensitive: bool) returns (i: nat)
    ensures Find(members, name, caseSensitive).Some? ==>
      IsFirst(members, i, name, caseSensitive) && Find(members, name, caseSensitive) == Some(members[i].value)
    ensures Find(members, name, caseSensitive).None? ==>
      forall j :: 0 <= j < |members| ==> !SameKey(members[j].key, name, caseSensitive)
  {
    hide Fold, SameKey;
    i := 0;
    if members != [] {
      FoldExactly(members[0].key, name, caseSensitive);
    }
    if members != [] && !SameKey(members[0].key, name, caseSensitive) {
      var rest := members[1..];
      i := FindFirst(rest, name, caseSensitive);
      assert forall j :: 1 <= j < |members| ==> members[j] == rest[j - 1];
      i := i + 1;
    }
  }

  // case_insensitive_strcmp, on C strings; whether it returns 0.
  method SameIgnoringCase(a: seq<byte>, b: seq<byte>) returns (same: bool)
    requires NulFree(a) && NulFree(b)
    ensures same <==> SameKey(a, b, false)
  {
    var s, t := Terminated(a), Terminated(b);
    var i := 0;
    while Lower(s[i]) == Lower(t[i])
      invariant 0 <= i <= |a| && i <= |b|
      invariant forall j :: 0 <= j < i ==> SameLetter(a[j], b[j])
      decreases |a| - i
    {
      if s[i] == 0 {
        return true;
      }
      i := i + 1;
    }
    return false;
  }

  // get_object_item, whose loops stop at the first member that has the name.
  method GetObjectItem(members: seq<Member>, name: seq<byte>, caseSensitive: bool) returns (i: nat)
    requires NulFree(name) && forall j :: 0 <= j < |members| ==> NulFree(members[j].key)
    ensures i <= |members| && (i < |members| ==> IsFirst(members, i, name, caseSensitive))
    ensures i == |members| ==> forall j :: 0 <= j < |members| ==> !SameKey(members[j].key, name, caseSensitive)
    ensures Find(members, name, caseSensitive) == if i < |members| then Some(members[i].value) else None
  {
    i := 0;
    ghost var k := FindFirst(members, name, caseSensitive);
    while i < |members|
      invariant i <= |members| && forall j :: 0 <= j < i ==> !SameKey(members[j].key, name, caseSensitive)
    {
      var same := false;
      if caseSensitive {
        same := name == members[i].key;
      } else {
        same := SameIgnoringCase(name, members[i].key);
        SameKeyTurned(name, members[i].key, false);
      }
      if same {
        return;
      }
      i := i + 1;
    }
  }

  lemma {:induction false} ItemHeight(items: seq<Json>, i: nat)
    requires i < |items|
    ensures Height(items[i]) <= HeightOfItems(items)
  {
    if i > 0 {
      ItemHeight(items[1..], i - 1);
    }
  }

  lemma {:induction false} MemberHeight(members: seq<Member>, i: nat)
    requires i < |members|
    ensures Height(members[i].value) <= HeightOfMembers(members)
  {
    if i > 0 {
      MemberHeight(members[1..], i - 1);
    }
  }

  // The caller's number conversion is a parameter.
  predicate Compare(a: Json, b: Json, caseSensitive: bool, num: seq<byte> -> Double)
    decreases Height(a) + Height(b), 1
  {
    match (a, b)
    case (Null, Null) => true
    case (False, False) => true
    case (True, True) => true
    case (Number(s), Number(t)) => SameDouble(num(s), num(t))
    case (Raw(s), Raw(t)) => s == t
    case (String(s), String(t)) => s == t
    case (Array(s), Array(t)) =>
      && |s| == |t|
      && (forall i :: 0 <= i < |s| ==>
            (ItemHeight(s, i); ItemHeight(t, i); Compare(s[i], t[i], caseSensitive, num)))
    case (Object(s), Object(t)) =>
      CompareOneWay(s, t, caseSensitive, num) && CompareOneWay(t, s, caseSensitive, num)
    case _ => false
  }

  // Every member of `s` has its counterpart in `t`.
  predicate CompareOneWay(s: seq<Member>, t: seq<Member>, caseSensitive: bool, num: seq<byte> -> Double)
    decreases HeightOfMembers(s) + HeightOfMembers(t) + 1, 2
  {
    forall i :: 0 <= i < |s| ==>
      var found := Find(t, s[i].key, caseSensitive);
      found.Some? &&
      (MemberHeight(s, i); FoundHeight(t, s[i].key, caseSensitive);
       Compare(s[i].value, found.value, caseSensitive, num))
  }

  lemma FoundHeight(members: seq<Member>, name: seq<byte>, caseSensitive: bool)
    ensures var found := Find(members, name, caseSensitive);
      found.Some? ==> Height(found.value) <= HeightOfMembers(members)
  {
    var i := FindFirst(members, name, caseSensitive);
    if Find(members, name, caseSensitive).Some? {
      MemberHeight(members, i);
    }
  }

  // ----- Meanings -----

  datatype Meaning =
    | MNull
    | MFalse
    | MTrue
    | MNumber(d: Double)
    | MRaw(raw: seq<byte>)
    | MString(s: seq<byte>)
    | MArray(items: seq<Meaning>)
    | MObject(members: map<seq<byte>, Meaning>)

  function Denote(v: Json, caseSensitive: bool, num: seq<byte> -> Double): Meaning
    decreases v, 1
  {
    match v
    case Null => MNull
    case False => MFalse
    case True => MTrue
    case Number(t) => MNumber(num(t))
    case Raw(t) => MRaw(t)
    case String(t) => MString(t)
    case Array(items) => MArray(seq(|items|, i requires 0 <= i < |items| => Denote(items[i], caseSensitive, num)))
    case Object(members) => MObject(DenoteMembers(members, caseSensitive, num))
  }

  // The first of several members with one key counts.
  function DenoteMembers(members: seq<Member>, caseSensitive: bool, num: seq<byte> -> Double): map<seq<byte>, Meaning>
    decreases members, 0
  {
    if members == [] then map[]
    else
      DenoteMembers(members[1..], caseSensitive, num)[
        Fold(members[0].key, caseSensitive) := Denote(members[0].value, caseSensitive, num)]
  }

  // No NaN, and members that share a key share their meaning: there is only
  // one thing the value can mean.
  predicate Coherent(v: Json, caseSensitive: bool, num: seq<byte> -> Double) {
    match v
    case Number(t) => !num(t).NaN?
    case Array(items) => forall i :: 0 <= i < |items| ==> Coherent(items[i], caseSensitive, num)
    case Object(members) =>
      && (forall i :: 0 <= i < |members| ==> Coherent(members[i].value, caseSensitive, num))
      && (forall i, j :: 0 <= i < |members| && 0 <= j < |members| ==>
            SameKey(members[i].key, members[j].key, caseSensitive) ==>
            Denote(members[i].value, caseSensitive, num) == Denote(members[j].value, caseSensitive, num))
    case _ => true
  }

  // Looking a name up in the list and in the map agree.
  lemma {:induction false} FindDenotes(members: seq<Member>, name: seq<byte>, cs: bool, num: seq<byte> -> Double)
    ensures Fold(name, cs) in DenoteMembers(members, cs, num) <==> Find(members, name, cs).Some?
    ensures Find(members, name, cs).Some? ==>
      DenoteMembers(members, cs, num)[Fold(name, cs)] == Denote(Find(members, name, cs).value, cs, num)
  {
    if members != [] {
      FindDenotes(members[1..], name, cs, num);
    }
  }

  lemma {:induction false} KeyHasMember(members: seq<Member>, k: seq<byte>, cs: bool, num: seq<byte> -> Double)
    returns (i: nat)
    requires k in DenoteMembers(members, cs, num)
    ensures i < |members| && Fold(members[i].key, cs) == k
  {
    if Fold(members[0].key, cs) == k {
      i := 0;
    } else {
      i := KeyHasMember(members[1..], k, cs, num);
      i := i + 1;
    }
  }

  // What the one-way comparison establishes about one member.
  ghost predicate Counterpart(m: Member, t: seq<Member>, cs: bool, num: seq<byte> -> Double) {
    var found := Find(t, m.key, cs);
    && found.Some?
    && Coherent(m.value, cs, num) && Coherent(found.value, cs, num)
    && Denote(m.value, cs, num) == Denote(found.value, cs, num)
  }

  lemma {:induction false} OneWay(s: seq<Member>, t: seq<Member>, cs: bool, num: seq<byte> -> Double)
    ensures CompareOneWay(s, t, cs, num) <==> forall i :: 0 <= i < |s| ==> Counterpart(s[i], t, cs, num)
    decreases HeightOfMembers(s) + HeightOfMembers(t) + 1, 2
  {
    forall i | 0 <= i < |s| && Find(t, s[i].key, cs).Some?
      ensures Compare(s[i].value, Find(t, s[i].key, cs).value, cs, num) <==> Counterpart(s[i], t, cs, num)
    {
      MemberHeight(s, i);
      FoundHeight(t, s[i].key, cs);
      CompareMeaning(s[i].value, Find(t, s[i].key, cs).value, cs, num);
    }
  }

  lemma {:induction false} Items(s: seq<Json>, t: seq<Json>, cs: bool, num: seq<byte> -> Double)
    ensures Compare(Array(s), Array(t), cs, num) <==>
      (Coherent(Array(s), cs, num) && Coherent(Array(t), cs, num) &&
       Denote(Array(s), cs, num) == Denote(Array(t), cs, num))
    decreases Height(Array(s)) + Height(Array(t)), 0
  {
    if |s| == |t| {
      forall i | 0 <= i < |s|
        ensures Compare(s[i], t[i], cs, num) <==>
          (Coherent(s[i], cs, num) && Coherent(t[i], cs, num) && Denote(s[i], cs, num) == Denote(t[i], cs, num))
      {
        ItemHeight(s, i);
        ItemHeight(t, i);
        CompareMeaning(s[i], t[i], cs, num);
      }
      var ds, dt := Denote(Array(s), cs, num).items, Denote(Array(t), cs, num).items;
      assert |ds| == |dt| == |s|;
      assert forall i :: 0 <= i < |s| ==> ds[i] == Denote(s[i], cs, num) && dt[i] == Denote(t[i], cs, num);
    } else {
      assert |Denote(Array(s), cs, num).items| == |s|;
      assert |Denote(Array(t), cs, num).items| == |t|;
    }
  }

  lemma CounterpartMeans(m: Member, t: seq<Member>, cs: bool, num: seq<byte> -> Double)
    requires Counterpart(m, t, cs, num)
    ensures Coherent(m.value, cs, num)
    ensures Fold(m.key, cs) in DenoteMembers(t, cs, num)
    ensures DenoteMembers(t, cs, num)[Fold(m.key, cs)] == Denote(m.value, cs, num)
  {
    hide Coherent;
    hide Denote;
    hide Find;
    FindDenotes(t, m.key, cs, num);
  }

  // Members with counterparts in `t` cohere, and their map is part of t's.
  lemma CounterpartsCohere(s: seq<Member>, t: seq<Member>, cs: bool, num: seq<byte> -> Double)
    requires forall i :: 0 <= i < |s| ==> Counterpart(s[i], t, cs, num)
    ensures Coherent(Object(s), cs, num)
    ensures var ds, dt := DenoteMembers(s, cs, num), DenoteMembers(t, cs, num);
      ds.Keys <= dt.Keys && forall k :: k in ds ==> ds[k] == dt[k]
  {
    hide Counterpart;
    hide DenoteMembers;
    hide Denote;
    hide Find;
    hide Fold;
    hide SameKey;
    var ds, dt := DenoteMembers(s, cs, num), DenoteMembers(t, cs, num);
    forall i | 0 <= i < |s|
      ensures Coherent(s[i].value, cs, num)
      ensures Fold(s[i].key, cs) in dt && Denote(s[i].value, cs, num) == dt[Fold(s[i].key, cs)]
    {
      CounterpartMeans(s[i], t, cs, num);
    }
    forall i, j | 0 <= i < |s| && 0 <= j < |s| && SameKey(s[i].key, s[j].key, cs)
      ensures Denote(s[i].value, cs, num) == Denote(s[j].value, cs, num)
    {
      FoldExactly(s[i].key, s[j].key, cs);
    }
    forall k | k in ds ensures k in dt && ds[k] == dt[k] {
      var i := KeyHasMember(s, k, cs, num);
      FindDenotes(s, s[i].key, cs, num);
      var j := FindFirst(s, s[i].key, cs);
      FoldExactly(s[j].key, s[i].key, cs);
      assert Fold(s[j].key, cs) == k;
    }
  }

  lemma CoherentCounterpart(s: seq<Member>, t: seq<Member>, i: nat, cs: bool, num: seq<byte> -> Double)
    requires Coherent(Object(s), cs, num) && Coherent(Object(t), cs, num) && i < |s|
    requires DenoteMembers(s, cs, num) == DenoteMembers(t, cs, num)
    ensures Counterpart(s[i], t, cs, num)
  {
    hide DenoteMembers;
    hide Denote;
    hide Find;
    hide Fold;
    hide SameKey;
    var name := s[i].key;
    FindDenotes(s, name, cs, num);
    FindDenotes(t, name, cs, num);
    FoldExactly(s[i].key, name, cs);
    var j := FindFirst(s, name, cs);
    var k := FindFirst(t, name, cs);
    assert SameKey(s[j].key, s[i].key, cs);
  }

  lemma {:induction false} Members(s: seq<Member>, t: seq<Member>, cs: bool, num: seq<byte> -> Double)
    ensures Compare(Object(s), Object(t), cs, num) <==>
      (Coherent(Object(s), cs, num) && Coherent(Object(t), cs, num) &&
       Denote(Object(s), cs, num) == Denote(Object(t), cs, num))
    decreases Height(Object(s)) + Height(Object(t)), 0
  {
    hide Coherent;
    hide DenoteMembers;
    OneWay(s, t, cs, num);
    OneWay(t, s, cs, num);
    if Compare(Object(s), Object(t), cs, num) {
      CounterpartsCohere(s, t, cs, num);
      CounterpartsCohere(t, s, cs, num);
      assert DenoteMembers(s, cs, num) == DenoteMembers(t, cs, num);
    } else if Coherent(Object(s), cs, num) && Coherent(Object(t), cs, num) &&
              DenoteMembers(s, cs, num) == DenoteMembers(t, cs, num) {
      forall i | 0 <= i < |s| ensures Counterpart(s[i], t, cs, num) {
        CoherentCounterpart(s, t, i, cs, num);
      }
      forall i | 0 <= i < |t| ensures Counterpart(t[i], s, cs, num) {
        CoherentCounterpart(t, s, i, cs, num);
      }
    }
  }

  // For all values: they compare equal exactly when both are coherent and
  // they mean the same, member order aside.
  lemma {:induction false} CompareMeaning(a: Json, b: Json, caseSensitive: bool, num: seq<byte> -> Double)
    ensures Compare(a, b, caseSensitive, num) <==>
      (Coherent(a, caseSensitive, num) && Coherent(b, caseSensitive, num) &&
       Denote(a, caseSensitive, num) == Denote(b, caseSensitive, num))
    decreases Height(a) + Height(b), 1
  {
    match (a, b) {
      case (Array(s), Array(t)) => Items(s, t, caseSensitive, num);
      case (Object(s), Object(t)) => Members(s, t, caseSensitive, num);
      case _ =>
    }
  }

  // The same without maps and folds: values that are alike have the same
  // numbers and texts, and members in any order with keys that are the same.
  ghost predicate Alike(a: Json, b: Json, cs: bool, num: seq<byte> -> Double)
    decreases Height(a) + Height(b), 1
  {
    match (a, b)
    case (Null, Null) => true
    case (False, False) => true
    case (True, True) => true
    case (Number(s), Number(t)) => num(s) == num(t)
    case (Raw(s), Raw(t)) => s == t
    case (String(s), String(t)) => s == t
    case (Array(s), Array(t)) =>
      && |s| == |t|
      && (forall i :: 0 <= i < |s| ==> (ItemHeight(s, i); ItemHeight(t, i); Alike(s[i], t[i], cs, num)))
    case (Object(s), Object(t)) =>
      && (forall i :: 0 <= i < |s| ==> AlikeMember(s, i, t, cs, num))
      && (forall j :: 0 <= j < |t| ==> AlikeMember(t, j, s, cs, num))
    case _ => false
  }

  ghost predicate AlikeMember(s: seq<Member>, i: nat, t: seq<Member>, cs: bool, num: seq<byte> -> Double)
    requires i < |s|
    decreases HeightOfMembers(s) + HeightOfMembers(t) + 1, 2
  {
    exists j :: 0 <= j < |t| && SameKey(s[i].key, t[j].key, cs)
                && (MemberHeight(s, i); MemberHeight(t, j); Alike(s[i].value, t[j].value, cs, num))
  }

  lemma {:induction false} MeansAlike(a: Json, b: Json, cs: bool, num: seq<byte> -> Double)
    requires Coherent(a, cs, num) && Coherent(b, cs, num)
    ensures Denote(a, cs, num) == Denote(b, cs, num) <==> Alike(a, b, cs, num)
    decreases Height(a) + Height(b), 1
  {
    hide Coherent;
    match (a, b) {
      case (Array(s), Array(t)) => ItemsAlike(s, t, cs, num);
      case (Object(s), Object(t)) => MembersAlike(s, t, cs, num);
      case _ =>
    }
  }

  lemma {:induction false} ItemsAlike(s: seq<Json>, t: seq<Json>, cs: bool, num: seq<byte> -> Double)
    requires Coherent(Array(s), cs, num) && Coherent(Array(t), cs, num)
    ensures Denote(Array(s), cs, num) == Denote(Array(t), cs, num) <==> Alike(Array(s), Array(t), cs, num)
    decreases Height(Array(s)) + Height(Array(t)), 0
  {
    var ds, dt := Denote(Array(s), cs, num).items, Denote(Array(t), cs, num).items;
    assert |ds| == |s| && |dt| == |t|;
    if |s| == |t| {
      forall i | 0 <= i < |s|
        ensures ds[i] == dt[i] <==> Alike(s[i], t[i], cs, num)
      {
        ItemHeight(s, i);
        ItemHeight(t, i);
        MeansAlike(s[i], t[i], cs, num);
      }
    }
  }

  // The meaning of a coherent member is what the map says of its key.
  lemma MemberMeans(s: seq<Member>, i: nat, cs: bool, num: seq<byte> -> Double)
    requires Coherent(Object(s), cs, num) && i < |s|
    ensures var ds := DenoteMembers(s, cs, num);
      Fold(s[i].key, cs) in ds && ds[Fold(s[i].key, cs)] == Denote(s[i].value, cs, num)
  {
    hide DenoteMembers, Denote, Find, Fold, SameKey;
    FindDenotes(s, s[i].key, cs, num);
    FoldExactly(s[i].key, s[i].key, cs);
    var j := FindFirst(s, s[i].key, cs);
    assert SameKey(s[i].key, s[i].key, cs);
  }

  lemma {:induction false} MemberAlike(s: seq<Member>, i: nat, t: seq<Member>, cs: bool, num: seq<byte> -> Double)
    requires Coherent(Object(s), cs, num) && Coherent(Object(t), cs, num) && i < |s|
    ensures var dt, k := DenoteMembers(t, cs, num), Fold(s[i].key, cs);
      k in dt && dt[k] == Denote(s[i].value, cs, num) <==> AlikeMember(s, i, t, cs, num)
    decreases HeightOfMembers(s) + HeightOfMembers(t) + 1, 3
  {
    hide DenoteMembers, Denote, Fold, SameKey;
    var dt, k := DenoteMembers(t, cs, num), Fold(s[i].key, cs);
    MemberHeight(s, i);
    if AlikeMember(s, i, t, cs, num) {
      var j :| 0 <= j < |t| && SameKey(s[i].key, t[j].key, cs) && Alike(s[i].value, t[j].value, cs, num);
      MemberHeight(t, j);
      MeansAlike(s[i].value, t[j].value, cs, num);
      FoldExactly(s[i].key, t[j].key, cs);
      MemberMeans(t, j, cs, num);
    } else if k in dt && dt[k] == Denote(s[i].value, cs, num) {
      var j := KeyHasMember(t, k, cs, num);
      FoldExactly(s[i].key, t[j].key, cs);
      MemberMeans(t, j, cs, num);
      MemberHeight(t, j);
      MeansAlike(s[i].value, t[j].value, cs, num);
    }
  }

  lemma {:induction false} MembersAlike(s: seq<Member>, t: seq<Member>, cs: bool, num: seq<byte> -> Double)
    requires Coherent(Object(s), cs, num) && Coherent(Object(t), cs, num)
    ensures Denote(Object(s), cs, num) == Denote(Object(t), cs, num) <==> Alike(Object(s), Object(t), cs, num)
    decreases Height(Object(s)) + Height(Object(t)), 0
  {
    hide Coherent, DenoteMembers, AlikeMember;
    var ds, dt := DenoteMembers(s, cs, num), DenoteMembers(t, cs, num);
    forall i | 0 <= i < |s|
      ensures var k := Fold(s[i].key, cs);
        k in ds && (k in dt && dt[k] == ds[k] <==> AlikeMember(s, i, t, cs, num))
    {
      MemberMeans(s, i, cs, num);
      MemberAlike(s, i, t, cs, num);
    }
    forall j | 0 <= j < |t|
      ensures var k := Fold(t[j].key, cs);
        k in dt && (k in ds && ds[k] == dt[k] <==> AlikeMember(t, j, s, cs, num))
    {
      MemberMeans(t, j, cs, num);
      MemberAlike(t, j, s, cs, num);
    }
    if Alike(Object(s), Object(t), cs, num) {
      forall k | k in ds ensures k in dt && dt[k] == ds[k] { var i := KeyHasMember(s, k, cs, num); }
      forall k | k in dt ensures k in ds { var j := KeyHasMember(t, k, cs, num); }
      assert ds == dt;
    }
  }

  // Two values compare equal exactly when no number in them is NaN, members
  // with the same key are alike, and the values are.
  lemma CompareExactly(a: Json, b: Json, cs: bool, num: seq<byte> -> Double)
    ensures Compare(a, b, cs, num) <==>
      Coherent(a, cs, num) && Coherent(b, cs, num) && Alike(a, b, cs, num)
  {
    CompareMeaning(a, b, cs, num);
    if Coherent(a, cs, num) && Coherent(b, cs, num) {
      MeansAlike(a, b, cs, num);
    }
  }

  // And members with the same key are alike, where there is no NaN, exactly when
  // their meanings are the same.
  lemma CoherentExactly(members: seq<Member>, cs: bool, num: seq<byte> -> Double)
    ensures Coherent(Object(members), cs, num) <==>
      (forall i :: 0 <= i < |members| ==> Coherent(members[i].value, cs, num)) &&
      forall i, j :: 0 <= i < |members| && 0 <= j < |members| && SameKey(members[i].key, members[j].key, cs)
                     ==> Alike(members[i].value, members[j].value, cs, num)
  {
    hide SameKey, Alike, Denote;
    if forall i :: 0 <= i < |members| ==> Coherent(members[i].value, cs, num) {
      forall i, j | 0 <= i < |members| && 0 <= j < |members|
        ensures Denote(members[i].value, cs, num) == Denote(members[j].value, cs, num)
           <==> Alike(members[i].value, members[j].value, cs, num)
      {
        MeansAlike(members[i].value, members[j].value, cs, num);
      }
    }
  }

  // Symmetric and transitive always; a value equals a copy of itself exactly
  // when it is coherent.
  lemma CompareIsEquivalence(a: Json, b: Json, c: Json, caseSensitive: bool, num: seq<byte> -> Double)
    ensures Compare(a, a, caseSensitive, num) <==> Coherent(a, caseSensitive, num)
    ensures Compare(a, b, caseSensitive, num) ==> Compare(b, a, caseSensitive, num)
    ensures Compare(a, b, caseSensitive, num) && Compare(b, c, caseSensitive, num) ==> Compare(a, c, caseSensitive, num)
  {
    CompareMeaning(a, a, caseSensitive, num);
    CompareMeaning(a, b, caseSensitive, num);
    CompareMeaning(b, a, caseSensitive, num);
    CompareMeaning(b, c, caseSensitive, num);
    CompareMeaning(a, c, caseSensitive, num);
  }

  // Two members with one key and different values: a copy is not equal.
  lemma CopyDiffers(num: seq<byte> -> Double)
    ensures var v := Object([Member([97], True), Member([97], False)]); !Compare(v, v, true, num)
  {
    var members := [Member([97], True), Member([97], False)];
    assert SameKey(members[0].key, members[1].key, true);
    assert !Coherent(Object(members), true, num);
    CompareMeaning(Object(members), Object(members), true, num);
  }
}
