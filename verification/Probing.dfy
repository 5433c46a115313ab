/**
 The probe sequence of the hash table: the bucket of step `t` is the hash plus
 the `t`-th triangular number, modulo a capacity that is a power of two.
 The table's comment promises that the sequence traverses every bucket; here
 that is a theorem, together with the step at which it first comes back.
 */
module Probing {
  import opened Arithmetic

  predicate IsPow2(n: nat) {
    n == 1 || (n > 0 && n % 2 == 0 && IsPow2(n / 2))
  }

  function Tri(t: nat): nat {
    if t == 0 then 0 else Tri(t - 1) + t
  }

  // The bucket examined at step `t` of a search for a key whose hash is `h`.
  function Probe(h: nat, t: nat, n: nat): (i: nat)
    requires n > 0
    ensures i < n
  {
    (h + Tri(t)) % n
  }

  // The program's step: add the incremented step counter and mask.
  lemma ProbeStep(h: nat, t: nat, n: nat)
    requires n > 0
    ensures Probe(h, t + 1, n) == (Probe(h, t, n) + (t + 1)) % n
  {
    var a := h + Tri(t);
    ModAdd(a, t + 1, n);
    assert h + Tri(t + 1) == a + (t + 1);
  }

  lemma {:induction false} TriClosed(t: nat)
    ensures 2 * Tri(t) == t * (t + 1)
  {
    if t > 0 {
      TriClosed(t - 1);
    }
  }

  lemma OddProduct(x: int, y: int)
    requires x % 2 == 1 && y % 2 == 1
    ensures (x * y) % 2 == 1
  {
    var a, b := x / 2, y / 2;
    assert x * y == 2 * (2 * (a * b) + a + b) + 1 by {
      assert x == 2 * a + 1 && y == 2 * b + 1;
    }
  }

  // An odd factor can be cancelled from a multiple of a power of two.
  lemma {:induction false} OddCancel(n: nat, x: int, y: int, q: int) returns (r: int)
    requires IsPow2(n)
    requires x % 2 == 1
    requires x * y == n * q
    ensures y == n * r
  {
    if n == 1 {
      r := y;
    } else {
      var m := n / 2;
      Twice(m, q);
      if y % 2 == 1 {
        OddProduct(x, y);
      }
      var z := y / 2;
      Twice(x, z);
      r := OddCancel(m, x, z, q);
      Twice(m, r);
    }
  }

  lemma SameResidue(a: nat, b: nat, n: nat) returns (q: int)
    requires n > 0 && a <= b
    requires a % n == b % n
    ensures b - a == n * q
  {
    q := b / n - a / n;
    assert a == n * (a / n) + a % n;
    assert b == n * (b / n) + b % n;
  }

  lemma FactorDifference(s: int, t: int)
    ensures (t - s) * (s + t + 1) == t * (t + 1) - s * (s + 1)
  {
  }

  lemma TriDifference(s: nat, t: nat, d: int, e: int)
    requires d == t - s && e == s + t + 1
    ensures d * e == 2 * (Tri(t) - Tri(s))
  {
    TriClosed(s);
    TriClosed(t);
    FactorDifference(s, t);
  }

  // Of a product that is a multiple of twice a power of two, with factors of
  // different parity, the even factor is itself a multiple.
  lemma EvenFactor(n: nat, d: nat, e: nat, q: int)
    requires IsPow2(n) && d * e == 2 * (n * q)
    requires d % 2 != e % 2
    requires 0 < d < 2 * n && 0 < e < 4 * n
    ensures e == 2 * n
  {
    var m := 2 * n;
    Twice(n, q);
    assert m / 2 == n;
    if d % 2 == 1 {
      var r := OddCancel(m, d, e, q);
      Quotient(m, e, r);
    } else {
      var r := OddCancel(m, e, d, q);
      Quotient(m, d, r);
    }
  }

  lemma ProbeGap(h: nat, s: nat, t: nat, n: nat) returns (q: int)
    requires n > 0 && s <= t
    requires Probe(h, s, n) == Probe(h, t, n)
    ensures Tri(t) - Tri(s) == n * q
  {
    TriMonotone(s, t);
    q := SameResidue(h + Tri(s), h + Tri(t), n);
  }

  // Two steps below 2n that meet are symmetric around n - 1/2: the sum of the
  // two step numbers plus one is 2n.
  lemma Meeting(h: nat, s: nat, t: nat, n: nat)
    requires IsPow2(n) && s < t < 2 * n
    requires Probe(h, s, n) == Probe(h, t, n)
    ensures s + t + 1 == 2 * n
  {
    hide Probe, Tri, IsPow2;
    var q := ProbeGap(h, s, t, n);
    var d, e := t - s, s + t + 1;
    TriDifference(s, t, d, e);
    EvenFactor(n, d, e, q);
  }

  lemma Quotient(m: nat, e: nat, r: int)
    requires m > 0 && e == m * r && 0 < e < 2 * m
    ensures e == m
  {
    MulBounds(m, r);
    assert m * 0 == 0;
  }

  lemma {:induction false} TriMonotone(s: nat, t: nat)
    requires s <= t
    ensures Tri(s) <= Tri(t)
  {
    if s < t {
      TriMonotone(s, t - 1);
    }
  }

  // The first n probes are pairwise different.
  lemma ProbeInjective(h: nat, s: nat, t: nat, n: nat)
    requires IsPow2(n) && s < t < n
    ensures Probe(h, s, n) != Probe(h, t, n)
  {
    if Probe(h, s, n) == Probe(h, t, n) {
      Meeting(h, s, t, n);
    }
  }

  // Step 2n-1 is the first to come back to the first bucket, for n > 1.
  lemma FirstReturn(h: nat, t: nat, n: nat)
    requires IsPow2(n) && 0 < t < 2 * n
    ensures Probe(h, t, n) == Probe(h, 0, n) <==> t == 2 * n - 1
  {
    if Probe(h, t, n) == Probe(h, 0, n) {
      Meeting(h, 0, t, n);
    }
    if t == 2 * n - 1 {
      TriClosed(t);
      assert (2 * n - 1) * (2 * n) == 2 * (n * (2 * n - 1));
      assert Tri(t) == n * (2 * n - 1);
      ModShift(h, 2 * n - 1, n);
    }
  }

  ghost function Visited(h: nat, t: nat, n: nat): set<nat>
    requires n > 0
  {
    set s | 0 <= s < t :: Probe(h, s, n)
  }

  lemma {:induction false} VisitedCount(h: nat, t: nat, n: nat)
    requires IsPow2(n) && t <= n
    ensures |Visited(h, t, n)| == t
  {
    if t > 0 {
      VisitedCount(h, t - 1, n);
      var i := Probe(h, t - 1, n);
      assert Visited(h, t, n) == Visited(h, t - 1, n) + {i};
      if i in Visited(h, t - 1, n) {
        var s :| 0 <= s < t - 1 && Probe(h, s, n) == i;
        ProbeInjective(h, s, t - 1, n);
      }
    }
  }

  lemma {:induction false} BoundedSet(s: set<nat>, n: nat)
    requires forall x :: x in s ==> x < n
    ensures |s| <= n
    ensures |s| == n ==> forall x :: 0 <= x < n ==> x in s
  {
    if n > 0 {
      var s' := s - {n - 1};
      BoundedSet(s', n - 1);
      if n - 1 in s {
        assert |s| == |s'| + 1;
      } else {
        assert s' == s;
      }
    } else {
      assert s == {};
    }
  }

  // The first n probes visit every bucket.
  lemma ProbeSurjective(h: nat, j: nat, n: nat) returns (t: nat)
    requires IsPow2(n) && j < n
    ensures t < n && Probe(h, t, n) == j
  {
    VisitedCount(h, n, n);
    BoundedSet(Visited(h, n, n), n);
    assert j in Visited(h, n, n);
    t :| 0 <= t < n && Probe(h, t, n) == j;
  }

  // The unique step below n at which bucket `j` is examined.
  ghost function Depth(h: nat, j: nat, n: nat): (t: nat)
    requires IsPow2(n) && j < n
    ensures t < n && Probe(h, t, n) == j
  {
    assert exists t: nat :: t < n && Probe(h, t, n) == j by {
      var t := ProbeSurjective(h, j, n);
    }
    var t: nat :| t < n && Probe(h, t, n) == j;
    t
  }

  lemma DepthUnique(h: nat, t: nat, n: nat)
    requires IsPow2(n) && t < n
    ensures Depth(h, Probe(h, t, n), n) == t
  {
    var d := Depth(h, Probe(h, t, n), n);
    if d < t {
      ProbeInjective(h, d, t, n);
    } else if t < d {
      ProbeInjective(h, t, d, n);
    }
  }
}
