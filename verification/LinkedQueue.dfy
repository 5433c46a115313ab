/**
 The intrusive circular list: nodes that carry their own links, and macros that
 rewrite a few of them. A list is given by the nodes in order, its head first;
 which node of a circle is called the head is the caller's choice.
 */
module LinkedQueue {

  class Link {
    var next: Link
    var prev: Link

    // A node linked to itself: an empty list.
    constructor ()
      ensures Ring([this])
    {
      next, prev := this, this;
    }
  }

  ghost function Nexts(r: seq<Link>): (n: seq<Link>)
    reads r
    ensures |n| == |r|
  {
    seq(|r|, i requires 0 <= i < |r| reads r => r[i].next)
  }

  ghost function Prevs(r: seq<Link>): (n: seq<Link>)
    reads r
    ensures |n| == |r|
  {
    seq(|r|, i requires 0 <= i < |r| reads r => r[i].prev)
  }

  ghost predicate Distinct<T>(r: seq<T>) {
    forall i, j :: 0 <= i < j < |r| ==> r[i] != r[j]
  }

  function Before(k: nat, n: nat): (j: nat)
    requires k < n
    ensures j < n
  {
    if k == 0 then n - 1 else k - 1
  }

  function Behind(k: nat, n: nat): (j: nat)
    requires k < n
    ensures j < n
  {
    if k == n - 1 then 0 else k + 1
  }

  function Forth<T>(r: seq<T>): (n: seq<T>)
    requires r != []
    ensures |n| == |r|
  {
    r[1..] + [r[0]]
  }

  function Back<T>(r: seq<T>): (n: seq<T>)
    requires r != []
    ensures |n| == |r|
  {
    [r[|r| - 1]] + r[..|r| - 1]
  }

  lemma Around<T>(r: seq<T>)
    requires r != []
    ensures forall i :: 0 <= i < |r| ==> Forth(r)[i] == r[Behind(i, |r|)] && Back(r)[i] == r[Before(i, |r|)]
  {
  }

  // Following next goes through r and back to its start, following prev goes
  // the same way backwards.
  ghost predicate Ring(r: seq<Link>)
    reads r
  {
    r != [] && Distinct(r) && Nexts(r) == Forth(r) && Prevs(r) == Back(r)
  }

  // Writes a link of the k-th node of r, which is none of the others.
  method SetNext(q: Link, x: Link, ghost r: seq<Link>, ghost k: nat, ghost others: seq<Link>)
    requires Distinct(r) && k < |r| && q == r[k] && q !in others
    modifies q`next
    ensures q.next == x && Nexts(r) == old(Nexts(r))[k := x] && Prevs(r) == old(Prevs(r))
    ensures Nexts(others) == old(Nexts(others)) && Prevs(others) == old(Prevs(others))
  {
    q.next := x;
  }

  // Writes a link of the k-th node of r, which is none of the others.
  method SetPrev(q: Link, x: Link, ghost r: seq<Link>, ghost k: nat, ghost others: seq<Link>)
    requires Distinct(r) && k < |r| && q == r[k] && q !in others
    modifies q`prev
    ensures q.prev == x && Prevs(r) == old(Prevs(r))[k := x] && Nexts(r) == old(Nexts(r))
    ensures Nexts(others) == old(Nexts(others)) && Prevs(others) == old(Prevs(others))
  {
    q.prev := x;
  }

  method Init(q: Link)
    modifies q
    ensures Ring([q])
  {
    q.next := q;
    q.prev := q;
  }

  lemma LinkAt(r: seq<Link>, k: nat)
    requires k < |r|
    ensures r[k].next == Nexts(r)[k] && r[k].prev == Prevs(r)[k]
  {
  }

  method Empty(h: Link, ghost r: seq<Link>) returns (empty: bool)
    requires Ring(r) && h == r[0]
    ensures empty <==> r == [h]
  {
    Neighbours(r, 0);
    empty := h == h.next;
  }

  lemma Neighbours(r: seq<Link>, k: nat)
    requires Ring(r) && k < |r|
    ensures r[k].next == r[Behind(k, |r|)] == Forth(r)[k] && r[k].prev == r[Before(k, |r|)] == Back(r)[k]
  {
    hide Forth, Back, Nexts, Prevs, Before, Behind;
    Around(r);
    LinkAt(r, k);
  }

  // The links of some of the nodes, in order, are those links in order.
  lemma LinksOf(r: seq<Link>, i: nat, j: nat)
    requires i <= j <= |r|
    ensures Nexts(r[i..j]) == Nexts(r)[i..j] && Prevs(r[i..j]) == Prevs(r)[i..j]
  {
  }

  lemma LinksOfBoth(r: seq<Link>, s: seq<Link>)
    ensures Nexts(r + s) == Nexts(r) + Nexts(s) && Prevs(r + s) == Prevs(r) + Prevs(s)
  {
  }

  lemma StillDistinct<T>(r: seq<T>, k: nat)
    requires k < |r| && Distinct(r)
    ensures Distinct(r[..k] + r[k + 1..])
  {
    var s := r[..k] + r[k + 1..];
    assert forall i :: 0 <= i < |s| ==> s[i] == r[if i < k then i else i + 1];
  }

  lemma UnlinkedForth<T>(r: seq<T>, k: nat)
    requires k < |r| && 1 < |r|
    ensures var n := Forth(r)[Before(k, |r|) := Forth(r)[k]]; n[0..k] + n[k + 1..|r|] == Forth(r[..k] + r[k + 1..])
  {
    hide Forth, Back;
    var s, n := r[..k] + r[k + 1..], Forth(r)[Before(k, |r|) := Forth(r)[k]];
    Around(r);
    Around(s);
    forall i | 0 <= i < |s|
      ensures (n[0..k] + n[k + 1..|r|])[i] == Forth(s)[i]
    {
      assert (n[0..k] + n[k + 1..|r|])[i] == n[if i < k then i else i + 1];
      assert forall j :: 0 <= j < |s| ==> s[j] == r[if j < k then j else j + 1];
    }
  }

  lemma UnlinkedBack<T>(r: seq<T>, k: nat)
    requires k < |r| && 1 < |r|
    ensures var p := Back(r)[Behind(k, |r|) := Back(r)[k]]; p[0..k] + p[k + 1..|r|] == Back(r[..k] + r[k + 1..])
  {
    hide Forth, Back;
    var s, p := r[..k] + r[k + 1..], Back(r)[Behind(k, |r|) := Back(r)[k]];
    Around(r);
    Around(s);
    forall i | 0 <= i < |s|
      ensures (p[0..k] + p[k + 1..|r|])[i] == Back(s)[i]
    {
      assert (p[0..k] + p[k + 1..|r|])[i] == p[if i < k then i else i + 1];
      assert forall j :: 0 <= j < |s| ==> s[j] == r[if j < k then j else j + 1];
    }
  }

  // Takes a node out of its circle; a node alone stays as it is.
  method Remove(q: Link, ghost r: seq<Link>, ghost k: nat)
    requires Ring(r) && k < |r| && q == r[k]
    modifies r
    ensures |r| == 1 ==> Ring(r)
    ensures |r| > 1 ==> Ring(r[..k] + r[k + 1..]) && q.next == old(q.next) && q.prev == old(q.prev)
  {
    hide Nexts, Prevs, Distinct, Forth, Back, Before, Behind;
    Neighbours(r, k);
    SetNext(q.prev, q.next, r, Before(k, |r|), []);
    assert q.next == old(q.next);
    SetPrev(q.next, q.prev, r, Behind(k, |r|), []);
    if |r| > 1 {
      StillDistinct(r, k);
      UnlinkedForth(r, k);
      UnlinkedBack(r, k);
      LinksOf(r, 0, k);
      LinksOf(r, k + 1, |r|);
      LinksOfBoth(r[0..k], r[k + 1..|r|]);
      assert r[..k] + r[k + 1..] == r[0..k] + r[k + 1..|r|];
    }
  }

  lemma Headed<T>(r: seq<T>, q: T)
    requires r != [] && Distinct(r) && q !in r
    ensures var s := r[0..1] + [q] + r[1..|r|];
      var n, p := Forth(r)[0 := q], Back(r)[Behind(0, |r|) := q];
      Distinct(s) && n[0..1] + [Forth(r)[0]] + n[1..|r|] == Forth(s) && p[0..1] + [r[0]] + p[1..|r|] == Back(s)
  {
    hide Forth, Back;
    Around(r);
    Around(r[0..1] + [q] + r[1..|r|]);
    var s := r[0..1] + [q] + r[1..|r|];
    assert s[0] == r[0] && s[1] == q && forall i :: 2 <= i < |s| ==> s[i] == r[i - 1];
    var n, p := Forth(r)[0 := q], Back(r)[Behind(0, |r|) := q];
    var nexts, prevs := n[0..1] + [Forth(r)[0]] + n[1..|r|], p[0..1] + [r[0]] + p[1..|r|];
    forall i | 0 <= i < |s|
      ensures nexts[i] == Forth(s)[i] && prevs[i] == Back(s)[i]
    {
      if i >= 2 {
        assert nexts[i] == n[i - 1] && prevs[i] == p[i - 1];
      }
    }
  }

  method InsertHead(h: Link, q: Link, ghost r: seq<Link>)
    requires Ring(r) && h == r[0] && q !in r
    modifies r, q
    ensures Ring(r[0..1] + [q] + r[1..|r|])
  {
    hide Nexts, Prevs, Distinct, Forth, Back, Behind;
    Neighbours(r, 0);
    Alone(q);
    SetNext(q, h.next, [q], 0, r);
    SetPrev(q, h, [q], 0, r);
    SetPrev(q.next, q, r, Behind(0, |r|), [q]);
    SetNext(h, q, r, 0, [q]);
    Headed(r, q);
    LinksAround(r, q);
  }

  lemma LinksAround(r: seq<Link>, q: Link)
    requires r != []
    ensures Nexts(r[0..1] + [q] + r[1..|r|]) == Nexts(r)[0..1] + [q.next] + Nexts(r)[1..|r|]
    ensures Prevs(r[0..1] + [q] + r[1..|r|]) == Prevs(r)[0..1] + [q.prev] + Prevs(r)[1..|r|]
  {
    hide Nexts, Prevs;
    Alone(q);
    LinksOf(r, 0, 1);
    LinksOf(r, 1, |r|);
    LinksOfBoth(r[0..1], [q]);
    LinksOfBoth(r[0..1] + [q], r[1..|r|]);
  }

  lemma Alone(q: Link)
    ensures Distinct([q]) && Nexts([q]) == [q.next] && Prevs([q]) == [q.prev]
  {
  }

  lemma Tailed<T>(r: seq<T>, q: T)
    requires r != [] && Distinct(r) && q !in r
    ensures var n, p := Forth(r)[Before(0, |r|) := q], Back(r)[0 := q];
      Distinct(r + [q]) && n + [r[0]] == Forth(r + [q]) && p + [Back(r)[0]] == Back(r + [q])
  {
    hide Forth, Back;
    Around(r);
    Around(r + [q]);
    var s := r + [q];
    var nexts, prevs := Forth(r)[Before(0, |r|) := q] + [r[0]], Back(r)[0 := q] + [Back(r)[0]];
    forall i | 0 <= i < |s|
      ensures nexts[i] == Forth(s)[i] && prevs[i] == Back(s)[i]
    {
    }
  }

  method InsertTail(h: Link, q: Link, ghost r: seq<Link>)
    requires Ring(r) && h == r[0] && q !in r
    modifies r, q
    ensures Ring(r + [q])
  {
    hide Nexts, Prevs, Distinct, Forth, Back, Before;
    Neighbours(r, 0);
    Alone(q);
    SetNext(q, h, [q], 0, r);
    SetPrev(q, h.prev, [q], 0, r);
    SetNext(q.prev, q, r, Before(0, |r|), [q]);
    SetPrev(h, q, r, 0, [q]);
    Tailed(r, q);
    LinksOfBoth(r, [q]);
  }

  lemma JoinedDistinct<T>(r: seq<T>, s: seq<T>)
    requires Distinct(r) && 1 < |s| && Distinct(s) && forall x :: x in r ==> x !in s
    ensures Distinct(r + s[1..|s|])
  {
    var t := r + s[1..|s|];
    forall i, j | 0 <= i < j < |t|
      ensures t[i] != t[j]
    {
      assert i < |r| ==> r[i] in r;
      assert j >= |r| ==> t[j] == s[j - |r| + 1] && t[j] in s;
    }
  }

  lemma JoinedForth<T>(r: seq<T>, s: seq<T>)
    requires r != [] && 1 < |s|
    ensures Forth(r)[|r| - 1 := s[1]] + Forth(s)[|s| - 1 := r[0]][1..|s|] == Forth(r + s[1..|s|])
  {
    assert Forth(r)[|r| - 1 := s[1]] == r[1..] + [s[1]];
    assert Forth(s)[|s| - 1 := r[0]][1..|s|] == s[2..] + [r[0]];
    assert s[1..|s|] == [s[1]] + s[2..];
  }

  lemma JoinedBack<T>(r: seq<T>, s: seq<T>)
    requires r != [] && 1 < |s|
    ensures Back(r)[0 := s[|s| - 1]] + Back(s)[1 := Back(r)[0]][1..|s|] == Back(r + s[1..|s|])
  {
    assert Back(r)[0 := s[|s| - 1]] == [s[|s| - 1]] + r[..|r| - 1];
    assert Back(s)[1 := Back(r)[0]][1..|s|] == [r[|r| - 1]] + s[1..|s| - 1];
    assert s[1..|s|] == s[1..|s| - 1] + [s[|s| - 1]];
  }

  lemma LinksBehind(r: seq<Link>, s: seq<Link>, k: nat)
    requires k <= |s|
    ensures Nexts(r + s[k..|s|]) == Nexts(r) + Nexts(s)[k..|s|]
    ensures Prevs(r + s[k..|s|]) == Prevs(r) + Prevs(s)[k..|s|]
  {
    hide Nexts, Prevs;
    LinksOf(s, k, |s|);
    LinksOfBoth(r, s[k..|s|]);
  }

  // Moves everything behind n to the end of h.
  method Add(h: Link, n: Link, ghost r: seq<Link>, ghost s: seq<Link>)
    requires Ring(r) && Ring(s) && h == r[0] && n == s[0] && forall x :: x in r ==> x !in s
    modifies r, s
    ensures Ring(r + s[1..|s|])
  {
    hide Nexts, Prevs, Distinct, Forth, Back;
    Neighbours(r, 0);
    Neighbours(s, 0);
    assert Forth(s)[0] == n.next && Back(r)[0] == h.prev == r[|r| - 1];
    SetNext(h.prev, n.next, r, |r| - 1, s);
    SetPrev(n.next, h.prev, s, Behind(0, |s|), r);
    LinkAt(s, 0);
    SetPrev(h, n.prev, r, 0, s);
    ghost var (ring, others) := if |s| > 1 then (s, r) else (r, s);
    SetNext(h.prev, h, ring, |ring| - 1, others);
    if |s| > 1 {
      JoinedDistinct(r, s);
      JoinedForth(r, s);
      JoinedBack(r, s);
      LinksBehind(r, s, 1);
    } else {
      OldLinks(r, s);
    }
  }

  // With nothing behind n the writes put back what was there.
  lemma OldLinks<T>(r: seq<T>, s: seq<T>)
    requires r != [] && |s| == 1
    ensures r + s[1..|s|] == r
    ensures Forth(r)[|r| - 1 := s[0]][|r| - 1 := r[0]] == Forth(r) && Back(r)[0 := r[|r| - 1]] == Back(r)
  {
  }

  // The links of the first k nodes, closed up.
  lemma CutFront<T>(r: seq<T>, k: nat, x: T)
    requires 0 < k < |r| && Distinct(r)
    ensures var n, p := Forth(r)[|r| - 1 := x][k - 1 := r[0]], Back(r)[0 := r[k - 1]][k := x];
      Distinct(r[0..k]) && n[0..k] == Forth(r[0..k]) && p[0..k] == Back(r[0..k])
  {
    hide Forth, Back;
    Around(r);
    Around(r[0..k]);
  }

  // The links of the nodes from the k-th on, closed up through x.
  lemma CutRest<T>(r: seq<T>, k: nat, x: T)
    requires 0 < k < |r| && Distinct(r) && x !in r
    ensures var n, p := Forth(r)[|r| - 1 := x][k - 1 := r[0]], Back(r)[0 := r[k - 1]][k := x];
      var s := [x] + r[k..|r|];
      Distinct(s) && [r[k]] + n[k..|r|] == Forth(s) && [r[|r| - 1]] + p[k..|r|] == Back(s)
  {
    hide Forth, Back;
    Around(r);
    var s := [x] + r[k..|r|];
    Around(s);
    var n, p := Forth(r)[|r| - 1 := x][k - 1 := r[0]], Back(r)[0 := r[k - 1]][k := x];
    assert forall i :: 1 <= i < |s| ==> s[i] == r[i + k - 1];
    var nexts, prevs := [r[k]] + n[k..|r|], [r[|r| - 1]] + p[k..|r|];
    forall i | 0 <= i < |s|
      ensures nexts[i] == Forth(s)[i] && prevs[i] == Back(s)[i]
    {
      if i >= 1 {
        assert nexts[i] == n[i + k - 1] && prevs[i] == p[i + k - 1];
      }
    }
  }

  // Cuts h before its k-th node q; n becomes the head of what follows.
  method Split(h: Link, q: Link, n: Link, ghost r: seq<Link>, ghost k: nat)
    requires Ring(r) && h == r[0] && 0 < k < |r| && q == r[k] && n !in r
    modifies r, n
    ensures Ring(r[0..k]) && Ring([n] + r[k..|r|])
  {
    assert h != q && n != h && n != q;
    hide Nexts, Prevs, Distinct, Forth, Back;
    Neighbours(r, 0);
    Neighbours(r, k);
    Alone(n);
    SetPrev(n, h.prev, [n], 0, r);
    SetNext(n.prev, n, r, |r| - 1, [n]);
    SetNext(n, q, [n], 0, r);
    SetPrev(h, q.prev, r, 0, [n]);
    SetNext(h.prev, h, r, k - 1, [n]);
    SetPrev(q, n, r, k, [n]);
    CutLinks(n, r, k);
  }

  lemma CutLinks(n: Link, r: seq<Link>, k: nat)
    requires 0 < k < |r| && Distinct(r) && n !in r && n.next == r[k] && n.prev == r[|r| - 1]
    requires Nexts(r) == Forth(r)[|r| - 1 := n][k - 1 := r[0]] && Prevs(r) == Back(r)[0 := r[k - 1]][k := n]
    ensures Ring(r[0..k]) && Ring([n] + r[k..|r|])
  {
    hide Nexts, Prevs, Distinct, Forth, Back;
    CutFront(r, k, n);
    CutRest(r, k, n);
    Alone(n);
    LinksOf(r, 0, k);
    LinksBehind([n], r, k);
  }

  method Move(h: Link, n: Link, ghost r: seq<Link>)
    requires Ring(r) && h == r[0] && n !in r
    modifies r, n
    ensures Ring([h]) && Ring([n] + r[1..|r|])
  {
    hide Nexts, Prevs, Distinct;
    Neighbours(r, 0);
    var empty := Empty(h, r);
    if empty {
      Init(n);
      assert [n] + r[1..|r|] == [n];
    } else {
      Split(h, h.next, n, r, 1);
      assert r[0..1] == [h];
    }
  }

  // The links leave no choice: a head has one list.
  lemma OneList(r: seq<Link>, s: seq<Link>)
    requires Ring(r) && Ring(s) && r[0] == s[0] && |r| <= |s|
    ensures r == s
  {
    hide Nexts, Prevs, Forth, Back;
    forall i | 0 <= i < |r|
      ensures r[i] == s[i]
    {
      SamePlace(r, s, i);
    }
    Neighbours(r, |r| - 1);
    Neighbours(s, |r| - 1);
  }

  lemma {:induction false} SamePlace(r: seq<Link>, s: seq<Link>, i: nat)
    requires Ring(r) && Ring(s) && r[0] == s[0] && i < |r| <= |s|
    ensures r[i] == s[i]
  {
    hide Ring, Nexts, Prevs, Forth, Back;
    if i > 0 {
      SamePlace(r, s, i - 1);
      Neighbours(r, i - 1);
      Neighbours(s, i - 1);
    }
  }

  // The traversal: every node behind the head, once and in order.
  method Foreach(h: Link, ghost r: seq<Link>) returns (visited: seq<Link>)
    requires Ring(r) && h == r[0]
    ensures visited == r[1..]
  {
    hide Ring, Nexts, Prevs, Forth, Back;
    visited := [];
    HeadOnce(r);
    Neighbours(r, 0);
    var q := h.next;
    ghost var i := 1;
    while q != h
      invariant 1 <= i <= |r| && q == (if i < |r| then r[i] else h)
      invariant visited == r[1..i]
      decreases |r| - i
    {
      Neighbours(r, i);
      visited := visited + [q];
      q := q.next;
      i := i + 1;
    }
  }

  lemma HeadOnce(r: seq<Link>)
    requires Ring(r)
    ensures r != [] && forall i :: 0 < i < |r| ==> r[i] != r[0]
  {
  }
}
