/**
 The two flag bits of a bucket, the sizing arithmetic of the hash table, and
 the heap-free invariants of its arrays: outside a rehash (`Indexed`,
 `Reachable`) and in the middle of one (`Rehashing`).
 */
module Buckets {
  import opened Probing

  // The two bits kept per bucket. A fresh bucket is empty and not deleted.
  datatype Flag = Flag(empty: bool, del: bool)

  const EMPTY := Flag(true, false)
  const LIVE := Flag(false, false)

  // The largest power of two that 32 bits hold.
  const MAX_BUCKETS := 0x8000_0000

  predicate Live(f: Flag) {
    !f.empty && !f.del
  }

  // kroundup32: the least power of two not below x, in 32-bit arithmetic. The
  // decrement of 0 and the increment of 0xffffffff both wrap to 0.
  function RoundUp32(x: nat): (r: nat)
    requires x < 0x1_0000_0000
    ensures 0 < x <= MAX_BUCKETS ==> IsPow2(r) && x <= r < 2 * x
    ensures x == 0 || x > MAX_BUCKETS ==> r == 0
  {
    if x == 0 || x > MAX_BUCKETS then 0 else RoundUpFrom(x, 1)
  }

  function RoundUpFrom(x: nat, p: nat): (r: nat)
    requires 0 < p < 2 * x && IsPow2(p)
    ensures IsPow2(r) && x <= r < 2 * x
    decreases 2 * x - p
  {
    if x <= p then p
    else
      assert (2 * p) / 2 == p;
      RoundUpFrom(x, 2 * p)
  }

  function Exp2(k: nat): (p: nat)
    ensures p > 0
  {
    if k == 0 then 1 else 2 * Exp2(k - 1)
  }

  lemma {:induction false} Pow2Below(n: nat, k: nat)
    requires IsPow2(n) && n < 2 * Exp2(k)
    ensures n <= Exp2(k)
  {
    if n > 1 && k > 0 {
      Pow2Below(n / 2, k - 1);
    }
  }

  // The number of buckets a resize request leads to.
  function Capacity(request: nat): (n: nat)
    requires request < 0x1_0000_0000
    ensures IsPow2(n) && 4 <= n <= MAX_BUCKETS
    ensures 4 <= request <= MAX_BUCKETS ==> request <= n < 2 * request
    ensures request <= 4 || request > MAX_BUCKETS ==> n == 4
  {
    var n := RoundUp32(request);
    assert IsPow2(4) by { assert IsPow2(2); }
    assert n >= 4 ==> n <= MAX_BUCKETS by {
      assert Exp2(8) == 0x100;
      assert Exp2(16) == 0x1_0000;
      assert Exp2(24) == 0x100_0000;
      assert Exp2(31) == MAX_BUCKETS;
      if n >= 4 { Pow2Below(n, 31); }
    }
    if n < 4 then 4 else n
  }

  // (khint_t)(n * 0.77 + 0.5)
  function UpperBound(n: nat): (u: nat)
    ensures 77 * n - 50 < 100 * u <= 77 * n + 50
    ensures n >= 4 ==> n / 2 < u < n
  {
    (77 * n + 50) / 100
  }

  lemma {:induction false} Pow2Unique(m: nat, n: nat)
    requires IsPow2(m) && IsPow2(n) && m <= n < 2 * m
    ensures m == n
  {
    if m > 1 {
      Pow2Unique(m / 2, n / 2);
    }
  }

  // Asking for one bucket less than a full table has keeps the capacity, and
  // asking for one more doubles it.
  lemma CapacityOfCleanup(n: nat)
    requires IsPow2(n) && 4 <= n <= MAX_BUCKETS
    ensures Capacity(n - 1) == n
  {
    if n == 4 {
      assert Capacity(3) == 4;
    } else {
      var r := Capacity(n - 1);
      if r < n {
        Pow2Unique(r, n);
      } else {
        Pow2Unique(n, r);
      }
    }
  }

  lemma CapacityOfGrowth(n: nat)
    requires n == 0 || (IsPow2(n) && 4 <= n < MAX_BUCKETS)
    ensures Capacity(n + 1) == if n == 0 then 4 else 2 * n
  {
    if n > 0 {
      var r := Capacity(n + 1);
      assert (2 * n) / 2 == n;
      if r <= 2 * n {
        Pow2Unique(r, 2 * n);
      } else {
        Pow2Unique(2 * n, r);
      }
    }
  }

  // A resize leads to as many buckets as it asks for exactly up to the largest
  // capacity. Beyond, the request overflows and comes to four buckets.
  lemma CapacityOverflow(request: nat)
    requires 4 < request < 0x1_0000_0000
    ensures request <= Capacity(request) <==> request <= MAX_BUCKETS
    ensures request > MAX_BUCKETS ==> Capacity(request) == 4
  {
  }

  // ----- Invariants of the arrays between operations -----

  // `index` locates the one live bucket of each key that is present.
  ghost predicate Indexed<K(!new)>(flags: seq<Flag>, keys: seq<K>, index: map<K, nat>) {
    && |flags| <= |keys|
    && (forall k :: k in index ==> index[k] < |flags| && Live(flags[index[k]]) && keys[index[k]] == k)
    && (forall j :: 0 <= j < |flags| && Live(flags[j]) ==> keys[j] in index && index[keys[j]] == j)
  }

  lemma NoBuckets<K(!new)>(flags: seq<Flag>, keys: seq<K>, index: map<K, nat>)
    requires Indexed(flags, keys, index) && flags == []
    ensures index == map[]
  {
  }

  lemma LiveKey<K(!new)>(flags: seq<Flag>, keys: seq<K>, index: map<K, nat>, x: nat)
    requires Indexed(flags, keys, index) && x < |flags| && Live(flags[x])
    ensures keys[x] in index
  {
  }

  // No bucket before `i` on the probe path of hash `h` is empty.
  ghost predicate OnPath(flags: seq<Flag>, h: nat, i: nat)
    requires IsPow2(|flags|) && i < |flags|
  {
    forall s :: 0 <= s < Depth(h, i, |flags|) ==> !flags[Probe(h, s, |flags|)].empty
  }

  ghost predicate Reachable<K(!new)>(hash: K -> nat, flags: seq<Flag>, index: map<K, nat>)
    requires IsPow2(|flags|)
    requires forall k :: k in index ==> index[k] < |flags|
  {
    forall k :: k in index ==> OnPath(flags, hash(k), index[k])
  }

  ghost function Occupied(flags: seq<Flag>): set<nat> {
    set j | 0 <= j < |flags| && !flags[j].empty
  }

  ghost function LiveSet(flags: seq<Flag>): set<nat> {
    set j | 0 <= j < |flags| && Live(flags[j])
  }

  lemma {:induction false} FullSet(s: set<nat>, n: nat)
    requires forall x :: 0 <= x < n ==> x in s
    ensures |s| >= n
  {
    if n > 0 {
      FullSet(s - {n - 1}, n - 1);
    }
  }

  lemma EmptyBucket(flags: seq<Flag>) returns (e: nat)
    requires |Occupied(flags)| < |flags|
    ensures e < |flags| && flags[e].empty
  {
    if forall x :: 0 <= x < |flags| ==> !flags[x].empty {
      FullSet(Occupied(flags), |flags|);
    }
    e :| 0 <= e < |flags| && flags[e].empty;
  }

  // An empty bucket on the probe path bounds every search.
  lemma SearchBound(flags: seq<Flag>, h: nat) returns (d: nat)
    requires IsPow2(|flags|) && |Occupied(flags)| < |flags|
    ensures d < |flags| && flags[Probe(h, d, |flags|)].empty
  {
    var e := EmptyBucket(flags);
    d := Depth(h, e, |flags|);
  }

  // The first `step` buckets of the search for `key` neither end nor satisfy it.
  ghost predicate Passed<K>(flags: seq<Flag>, keys: seq<K>, key: K, h: nat, step: nat)
    requires 0 < |flags| <= |keys|
  {
    forall s :: 0 <= s < step ==>
      var b := Probe(h, s, |flags|); !flags[b].empty && (flags[b].del || keys[b] != key)
  }

  // Step d of a search that ends at an empty bucket is where a new key goes:
  // the last deleted bucket on the way or, without any, that empty bucket.
  ghost predicate LastFree(flags: seq<Flag>, h: nat, d: nat)
    requires 0 < |flags|
  {
    exists end :: d <= end < |flags| && flags[Probe(h, end, |flags|)].empty
      && (if d == end then forall s :: 0 <= s < end ==> Live(flags[Probe(h, s, |flags|)])
          else flags[Probe(h, d, |flags|)].del && forall s :: d < s < end ==> Live(flags[Probe(h, s, |flags|)]))
  }

  // A search stops within n steps or not at all.
  lemma StopsEarly<K>(flags: seq<Flag>, keys: seq<K>, key: K, h: nat, step: nat)
    requires IsPow2(|flags|) && |flags| <= |keys| && Passed(flags, keys, key, h, step)
    requires var i := Probe(h, step, |flags|); flags[i].empty || (!flags[i].del && keys[i] == key)
    ensures step < |flags|
  {
    var t := ProbeSurjective(h, Probe(h, step, |flags|), |flags|);
  }

  // After n steps every bucket has been seen: none is empty, and the key is
  // not there.
  lemma FullCircle<K(!new)>(flags: seq<Flag>, keys: seq<K>, index: map<K, nat>, key: K, h: nat, step: nat)
    requires IsPow2(|flags|) && Indexed(flags, keys, index)
    requires |flags| <= step && Passed(flags, keys, key, h, step)
    ensures key !in index && forall p :: 0 <= p < |flags| ==> !flags[p].empty
  {
    forall p | 0 <= p < |flags|
      ensures !flags[p].empty && (flags[p].del || keys[p] != key)
    {
      var t := ProbeSurjective(h, p, |flags|);
    }
  }

  // Of the first `step` buckets on the path of hash `h`, that of step `d` is
  // the last deleted one.
  ghost predicate LastDeleted(flags: seq<Flag>, h: nat, step: nat, d: nat)
    requires 0 < |flags|
  {
    && d < step && flags[Probe(h, d, |flags|)].del
    && forall s :: d < s < step ==> Live(flags[Probe(h, s, |flags|)])
  }

  ghost predicate AllLive(flags: seq<Flag>, h: nat, step: nat)
    requires 0 < |flags|
  {
    forall s :: 0 <= s < step ==> Live(flags[Probe(h, s, |flags|)])
  }

  lemma NothingSeen(flags: seq<Flag>, h: nat)
    requires 0 < |flags|
    ensures AllLive(flags, h, 0)
  {
  }

  // One more bucket that the search passes.
  lemma PassedOne(flags: seq<Flag>, h: nat, step: nat, d: nat, deleted: bool)
    requires 0 < |flags| && !flags[Probe(h, step, |flags|)].empty
    requires if deleted then LastDeleted(flags, h, step, d) else AllLive(flags, h, step)
    ensures flags[Probe(h, step, |flags|)].del ==> LastDeleted(flags, h, step + 1, step)
    ensures !flags[Probe(h, step, |flags|)].del ==>
      if deleted then LastDeleted(flags, h, step + 1, d) else AllLive(flags, h, step + 1)
  {
  }

  // The search ends at an empty bucket.
  lemma SearchEnds(flags: seq<Flag>, h: nat, step: nat, d: nat, deleted: bool)
    requires step < |flags| && flags[Probe(h, step, |flags|)].empty
    requires if deleted then LastDeleted(flags, h, step, d) else AllLive(flags, h, step)
    ensures LastFree(flags, h, if deleted then d else step)
  {
  }

  // The search comes back to its start: no bucket is empty.
  lemma SearchCircles<K(!new)>(flags: seq<Flag>, keys: seq<K>, index: map<K, nat>, key: K,
                               h: nat, step: nat, d: nat, deleted: bool)
    requires IsPow2(|flags|) && Indexed(flags, keys, index)
    requires |flags| <= step && Passed(flags, keys, key, h, step)
    requires if deleted then LastDeleted(flags, h, step, d) else AllLive(flags, h, step)
    ensures key !in index && |Occupied(flags)| >= |flags| && forall p :: 0 <= p < |flags| ==> !flags[p].empty
    ensures |index| == |flags| <==> !deleted
  {
    FullCircle(flags, keys, index, key, h, step);
    FullSet(Occupied(flags), |flags|);
    FullTable(flags, keys, index);
    if !deleted {
      forall p | 0 <= p < |flags|
        ensures Live(flags[p])
      {
        var t := ProbeSurjective(h, p, |flags|);
      }
    }
  }

  // Where a search stops decides whether its key is present.
  lemma SearchResult<K(!new)>(hash: K -> nat, flags: seq<Flag>, keys: seq<K>, index: map<K, nat>, key: K, step: nat)
    requires IsPow2(|flags|) && Indexed(flags, keys, index) && Reachable(hash, flags, index)
    requires step < |flags| && Passed(flags, keys, key, hash(key), step)
    requires var i := Probe(hash(key), step, |flags|); flags[i].empty || (!flags[i].del && keys[i] == key)
    ensures var i := Probe(hash(key), step, |flags|);
      (key in index <==> Live(flags[i])) && (key in index ==> index[key] == i)
  {
    if key in index {
      var d := Depth(hash(key), index[key], |flags|);
      assert !(d < step);
      assert OnPath(flags, hash(key), index[key]);
      assert !flags[Probe(hash(key), d, |flags|)].empty;
    }
  }

  // A map that is inverted by reading keys has as many entries as buckets.
  lemma {:induction false} BijectionCount<K>(s: set<nat>, keys: seq<K>, index: map<K, nat>)
    requires forall p :: p in s ==> p < |keys| && keys[p] in index && index[keys[p]] == p
    requires forall k :: k in index ==> index[k] in s && keys[index[k]] == k
    ensures |s| == |index|
  {
    if s == {} {
      assert index == map[];
    } else {
      var p :| p in s;
      var index' := index - {keys[p]};
      assert index'.Keys == index.Keys - {keys[p]};
      BijectionCount(s - {p}, keys, index');
    }
  }

  // Filling one more bucket keeps paths open, and opens the path to a bucket
  // reached through non-empty ones.
  lemma FillKeepsPath(flags: seq<Flag>, flags': seq<Flag>, h: nat, i: nat)
    requires |flags| == |flags'| && IsPow2(|flags|) && i < |flags|
    requires forall p :: 0 <= p < |flags| && !flags[p].empty ==> !flags'[p].empty
    requires OnPath(flags, h, i)
    ensures OnPath(flags', h, i)
  {
  }

  lemma SearchedPath(flags: seq<Flag>, h: nat, d: nat)
    requires IsPow2(|flags|) && d < |flags|
    requires forall s :: 0 <= s < d ==> !flags[Probe(h, s, |flags|)].empty
    ensures OnPath(flags, h, Probe(h, d, |flags|))
  {
    DepthUnique(h, d, |flags|);
  }

  // The whole invariant of a table with `|flags|` buckets.
  ghost predicate TableInv<K(!new), V>(hash: K -> nat, size: nat, nOccupied: nat, upperBound: nat,
                                flags: seq<Flag>, keys: seq<K>, vals: seq<V>, index: map<K, nat>)
  {
    && |flags| == |keys| == |vals|
    && Indexed(flags, keys, index)
    && (forall p :: 0 <= p < |flags| ==> !(flags[p].empty && flags[p].del))
    && size == |index|
    && nOccupied == |Occupied(flags)|
    && (nOccupied <= upperBound || |flags| == MAX_BUCKETS)
    && (|flags| == 0 ==> upperBound == 0)
    && (|flags| != 0 ==>
          && IsPow2(|flags|) && 4 <= |flags| <= MAX_BUCKETS
          && upperBound == UpperBound(|flags|)
          && Reachable(hash, flags, index))
  }

  // The finite map that the arrays represent.
  ghost function MapOf<K, V>(vals: seq<V>, index: map<K, nat>): (m: map<K, V>)
    requires forall k :: k in index ==> index[k] < |vals|
    ensures m.Keys == index.Keys && |m| == |index|
  {
    var m := map k | k in index :: vals[index[k]];
    assert m.Keys == index.Keys;
    m
  }

  // A key found through non-empty buckets at a bucket that is not live keeps
  // every other key where it was.
  lemma InsertReachable<K(!new)>(hash: K -> nat, flags: seq<Flag>, index: map<K, nat>, key: K, d: nat)
    requires IsPow2(|flags|) && d < |flags|
    requires forall k :: k in index ==> index[k] < |flags|
    requires Reachable(hash, flags, index)
    requires forall s :: 0 <= s < d ==> !flags[Probe(hash(key), s, |flags|)].empty
    ensures var x := Probe(hash(key), d, |flags|);
      Reachable(hash, flags[x := LIVE], index[key := x])
  {
    var x := Probe(hash(key), d, |flags|);
    var flags', index' := flags[x := LIVE], index[key := x];
    forall k | k in index' ensures OnPath(flags', hash(k), index'[k]) {
      if k == key {
        SearchedPath(flags', hash(key), d);
      } else {
        FillKeepsPath(flags, flags', hash(k), index[k]);
      }
    }
  }

  lemma InsertIndexed<K(!new)>(flags: seq<Flag>, keys: seq<K>, index: map<K, nat>, key: K, x: nat)
    requires Indexed(flags, keys, index) && key !in index && x < |flags| && !Live(flags[x])
    ensures Indexed(flags[x := LIVE], keys[x := key], index[key := x])
  {
  }

  lemma DeleteIndexed<K(!new)>(flags: seq<Flag>, keys: seq<K>, index: map<K, nat>, x: nat)
    requires Indexed(flags, keys, index) && x < |flags| && Live(flags[x])
    ensures Indexed(flags[x := flags[x].(del := true)], keys, index - {keys[x]})
  {
  }

  lemma InsertCounts<K>(flags: seq<Flag>, index: map<K, nat>, key: K, x: nat)
    requires x < |flags| && !Live(flags[x]) && key !in index
    ensures |index[key := x]| == |index| + 1
    ensures |Occupied(flags[x := LIVE])| == |Occupied(flags)| + if flags[x].empty then 1 else 0
  {
    assert index[key := x].Keys == index.Keys + {key};
    assert Occupied(flags[x := LIVE]) == Occupied(flags) + {x};
    assert !flags[x].empty ==> x in Occupied(flags) && Occupied(flags) + {x} == Occupied(flags);
  }

  lemma InsertMap<K, V>(vals: seq<V>, index: map<K, nat>, key: K, x: nat)
    requires forall k :: k in index ==> index[k] < |vals|
    requires x < |vals|
    ensures MapOf(vals, index[key := x]) == MapOf(vals, index)[key := vals[x]]
  {
  }

  // A new key goes into a bucket that holds no key, all earlier buckets of its
  // path being non-empty: either an empty bucket or a tombstone.
  lemma Insertion<K(!new), V>(hash: K -> nat, size: nat, nOccupied: nat, upperBound: nat,
                       flags: seq<Flag>, keys: seq<K>, vals: seq<V>, index: map<K, nat>, key: K, d: nat)
    requires TableInv(hash, size, nOccupied, upperBound, flags, keys, vals, index)
    requires nOccupied < upperBound || |flags| == MAX_BUCKETS
    requires key !in index && d < |flags|
    requires !Live(flags[Probe(hash(key), d, |flags|)])
    requires forall s :: 0 <= s < d ==> !flags[Probe(hash(key), s, |flags|)].empty
    ensures var x := Probe(hash(key), d, |flags|);
      && TableInv(hash, size + 1, nOccupied + (if flags[x].empty then 1 else 0), upperBound,
                  flags[x := LIVE], keys[x := key], vals, index[key := x])
      && MapOf(vals, index[key := x]) == MapOf(vals, index)[key := vals[x]]
  {
    var x := Probe(hash(key), d, |flags|);
    InsertReachable(hash, flags, index, key, d);
    InsertCounts(flags, index, key, x);
    InsertMap(vals, index, key, x);
    InsertIndexed(flags, keys, index, key, x);
  }

  lemma DeleteReachable<K(!new)>(hash: K -> nat, flags: seq<Flag>, index: map<K, nat>, key: K, x: nat)
    requires IsPow2(|flags|) && x < |flags|
    requires forall k :: k in index ==> index[k] < |flags|
    requires Reachable(hash, flags, index)
    ensures Reachable(hash, flags[x := flags[x].(del := true)], index - {key})
  {
    var flags', index' := flags[x := flags[x].(del := true)], index - {key};
    forall k | k in index' ensures OnPath(flags', hash(k), index'[k]) {
      FillKeepsPath(flags, flags', hash(k), index[k]);
    }
  }

  lemma DeleteCounts<K, V>(flags: seq<Flag>, vals: seq<V>, index: map<K, nat>, key: K, x: nat)
    requires x < |flags| && key in index
    requires forall k :: k in index ==> index[k] < |vals|
    ensures |index - {key}| == |index| - 1
    ensures Occupied(flags[x := flags[x].(del := true)]) == Occupied(flags)
    ensures MapOf(vals, index - {key}) == MapOf(vals, index) - {key}
  {
    assert (index - {key}).Keys == index.Keys - {key};
  }

  // Marking a live bucket as deleted removes its key and nothing else.
  lemma Deletion<K(!new), V>(hash: K -> nat, size: nat, nOccupied: nat, upperBound: nat,
                      flags: seq<Flag>, keys: seq<K>, vals: seq<V>, index: map<K, nat>, x: nat)
    requires TableInv(hash, size, nOccupied, upperBound, flags, keys, vals, index)
    requires x < |flags| && Live(flags[x])
    ensures size > 0 && keys[x] in index
    ensures TableInv(hash, size - 1, nOccupied, upperBound,
                     flags[x := flags[x].(del := true)], keys, vals, index - {keys[x]})
    ensures MapOf(vals, index - {keys[x]}) == MapOf(vals, index) - {keys[x]}
  {
    DeleteReachable(hash, flags, index, keys[x], x);
    DeleteCounts(flags, vals, index, keys[x], x);
    DeleteIndexed(flags, keys, index, x);
  }

  lemma Emptied<K(!new), V>(hash: K -> nat, upperBound: nat, flags: seq<Flag>, keys: seq<K>, vals: seq<V>)
    requires |flags| == |keys| == |vals|
    requires forall p :: 0 <= p < |flags| ==> flags[p] == EMPTY
    requires |flags| == 0 ==> upperBound == 0
    requires |flags| != 0 ==> IsPow2(|flags|) && 4 <= |flags| <= MAX_BUCKETS && upperBound == UpperBound(|flags|)
    ensures TableInv(hash, 0, 0, upperBound, flags, keys, vals, map[])
    ensures MapOf<K, V>(vals, map[]) == map[]
  {
    assert Occupied(flags) == {};
  }

  // Another value for a key that is there.
  lemma Overwritten<K(!new), V>(hash: K -> nat, size: nat, nOccupied: nat, upperBound: nat,
                          flags: seq<Flag>, keys: seq<K>, vals: seq<V>, index: map<K, nat>, x: nat, v: V)
    requires TableInv(hash, size, nOccupied, upperBound, flags, keys, vals, index) && x < |flags| && Live(flags[x])
    ensures TableInv(hash, size, nOccupied, upperBound, flags, keys, vals[x := v], index)
    ensures keys[x] in index && MapOf(vals[x := v], index) == MapOf(vals, index)[keys[x] := v]
  {
    hide Reachable, Occupied, IsPow2, UpperBound;
    assert forall k :: k in index && k != keys[x] ==> index[k] != x;
  }

  // `size` counts the live buckets.
  lemma SizeCountsLive<K(!new)>(flags: seq<Flag>, keys: seq<K>, index: map<K, nat>)
    requires Indexed(flags, keys, index)
    ensures |index| == |LiveSet(flags)| <= |Occupied(flags)|
  {
    BijectionCount(LiveSet(flags), keys, index);
    SubsetCount(LiveSet(flags), Occupied(flags));
  }

  // The entries fill the table exactly when every bucket is live.
  lemma FullTable<K(!new)>(flags: seq<Flag>, keys: seq<K>, index: map<K, nat>)
    requires Indexed(flags, keys, index)
    ensures |index| <= |flags|
    ensures |index| == |flags| <==> forall p :: 0 <= p < |flags| ==> Live(flags[p])
  {
    var live := LiveSet(flags);
    BijectionCount(live, keys, index);
    BoundedSet(live, |flags|);
    assert forall p :: 0 <= p < |flags| ==> (p in live <==> Live(flags[p]));
    if forall p :: 0 <= p < |flags| ==> Live(flags[p]) {
      FullSet(live, |flags|);
    }
  }

  // A deleted bucket counts as occupied but not as an entry.
  lemma Tombstone<K(!new)>(flags: seq<Flag>, keys: seq<K>, index: map<K, nat>, x: nat)
    requires Indexed(flags, keys, index) && x < |flags| && !flags[x].empty && flags[x].del
    ensures |index| < |Occupied(flags)|
  {
    var live, occupied := LiveSet(flags), Occupied(flags);
    assert live <= occupied - {x} && x in occupied;
    BijectionCount(live, keys, index);
    SubsetCount(live, occupied - {x});
  }

  lemma {:induction false} SubsetCount(s: set<nat>, t: set<nat>)
    requires s <= t
    ensures |s| <= |t|
  {
    if x :| x in s {
      SubsetCount(s - {x}, t - {x});
    }
  }

  // Whichever request kh_put makes at the load bound, the entries fit, unless
  // a table of the largest capacity has live buckets for at least half.
  lemma RequestFits(n: nat, size: nat)
    requires n == 0 || (IsPow2(n) && 4 <= n <= MAX_BUCKETS)
    requires size <= UpperBound(n) || n == MAX_BUCKETS
    ensures n > 2 * size ==> size < UpperBound(Capacity(n - 1))
    ensures n < MAX_BUCKETS ==> size < UpperBound(Capacity(n + 1))
    ensures n == MAX_BUCKETS && n <= 2 * size ==> size >= UpperBound(Capacity(n + 1))
    ensures n > 2 * size ==> Capacity(n - 1) == n
    ensures n < MAX_BUCKETS ==> Capacity(n + 1) == if n == 0 then 4 else 2 * n
  {
    if n > 2 * size {
      CapacityOfCleanup(n);
    }
    if n < MAX_BUCKETS {
      CapacityOfGrowth(n);
    } else {
      CapacityOverflow(MAX_BUCKETS + 1);
    }
  }

  // The number of buckets after the request: as many as before when most are
  // not live or there can be no more, else twice as many, or the first four.
  lemma RequestAtBound(n: nat, size: nat, request: nat)
    requires n == 0 || (IsPow2(n) && 4 <= n <= MAX_BUCKETS)
    requires (size <= UpperBound(n) || n == MAX_BUCKETS) && size <= n
    requires request == if n > 2 * size % 0x1_0000_0000 then n - 1 else n + 1
    ensures request < 0x1_0000_0000
    ensures size < UpperBound(Capacity(request)) <==> n > 2 * size || n < MAX_BUCKETS
    ensures n > 2 * size || n < MAX_BUCKETS ==>
      Capacity(request) == (if n > 2 * size || n == MAX_BUCKETS then n else if n == 0 then 4 else 2 * n)
  {
    hide IsPow2, UpperBound, Capacity;
    assert 2 * size == 0x1_0000_0000 || 2 * size % 0x1_0000_0000 == 2 * size;
    RequestFits(n, size);
  }

  // ----- Invariant in the middle of a rehash -----

  predicate OldLive(src: seq<Flag>, p: nat) {
    p < |src| && Live(src[p])
  }

  predicate Placed(dst: seq<Flag>, p: nat) {
    p < |dst| && !dst[p].empty
  }

  // Every entry of `M` whose key is in `pos` sits in exactly one bucket, which
  // is still live under the old flags or already placed under the new ones,
  // never both; placed entries are found along the new probe paths.
  ghost predicate Rehashing<K(!new), V>(hash: K -> nat, src: seq<Flag>, dst: seq<Flag>, keys: seq<K>, vals: seq<V>,
                                 M: map<K, V>, pos: map<K, nat>)
  {
    && IsPow2(|dst|)
    && |keys| == |vals| && |src| <= |keys| && |dst| <= |keys|
    && pos.Keys <= M.Keys
    && (forall p: nat :: !(OldLive(src, p) && Placed(dst, p)))
    && (forall p: nat :: OldLive(src, p) || Placed(dst, p) ==> keys[p] in pos && pos[keys[p]] == p)
    && (forall k :: k in pos ==>
          && (OldLive(src, pos[k]) || Placed(dst, pos[k]))
          && keys[pos[k]] == k && vals[pos[k]] == M[k])
    && (forall k :: k in pos && Placed(dst, pos[k]) ==> OnPath(dst, hash(k), pos[k]))
    && (forall p :: 0 <= p < |dst| ==> !dst[p].del)
  }

  lemma {:induction false} InjectionCount<K>(s: set<nat>, keys: seq<K>, ks: set<K>, pos: map<K, nat>)
    requires forall p :: p in s ==> p < |keys| && keys[p] in pos && pos[keys[p]] == p && keys[p] in ks
    ensures |s| <= |ks|
  {
    if s != {} {
      var p :| p in s;
      InjectionCount(s - {p}, keys, ks - {keys[p]}, pos);
    }
  }

  // While an entry is in hand, the new table still has an empty bucket.
  lemma RoomLeft<K(!new), V>(hash: K -> nat, src: seq<Flag>, dst: seq<Flag>, keys: seq<K>, vals: seq<V>,
                      M: map<K, V>, pos: map<K, nat>)
    requires Rehashing(hash, src, dst, keys, vals, M, pos) && |M| < |dst|
    ensures IsPow2(|dst|) && |Occupied(dst)| < |dst|
  {
    forall p | p in Occupied(dst) ensures p < |keys| && keys[p] in pos && pos[keys[p]] == p && keys[p] in M {
      assert Placed(dst, p);
    }
    InjectionCount(Occupied(dst), keys, M.Keys, pos);
  }

  // Taking a live entry out of the old table.
  lemma TakeOut<K(!new), V>(hash: K -> nat, src: seq<Flag>, dst: seq<Flag>, keys: seq<K>, vals: seq<V>,
                      M: map<K, V>, pos: map<K, nat>, j: nat)
    requires Rehashing(hash, src, dst, keys, vals, M, pos) && OldLive(src, j)
    ensures Rehashing(hash, src[j := src[j].(del := true)], dst, keys, vals, M, pos - {keys[j]})
    ensures keys[j] in pos && vals[j] == M[keys[j]]
  {
    var src', pos' := src[j := src[j].(del := true)], pos - {keys[j]};
    forall p: nat | OldLive(src', p) || Placed(dst, p) ensures keys[p] in pos' && pos'[keys[p]] == p {
      assert OldLive(src, p) || Placed(dst, p);
      assert p != j;
    }
    forall p: nat ensures !(OldLive(src', p) && Placed(dst, p)) {
      assert OldLive(src', p) ==> OldLive(src, p);
    }
  }

  // Writing the entry in hand into the bucket that its search ended at, when
  // that bucket holds nothing any more.
  lemma PutDown<K(!new), V>(hash: K -> nat, src: seq<Flag>, dst: seq<Flag>, keys: seq<K>, vals: seq<V>,
                      M: map<K, V>, pos: map<K, nat>, key: K, d: nat)
    requires Rehashing(hash, src, dst, keys, vals, M, pos)
    requires key in M && key !in pos && d < |dst|
    requires forall s :: 0 <= s < d ==> !dst[Probe(hash(key), s, |dst|)].empty
    requires dst[Probe(hash(key), d, |dst|)].empty
    requires !OldLive(src, Probe(hash(key), d, |dst|))
    ensures var i := Probe(hash(key), d, |dst|);
      Rehashing(hash, src, dst[i := dst[i].(empty := false)], keys[i := key], vals[i := M[key]], M, pos[key := i])
  {
    var i := Probe(hash(key), d, |dst|);
    var dst', keys', vals', pos' := dst[i := dst[i].(empty := false)], keys[i := key], vals[i := M[key]], pos[key := i];
    assert !Placed(dst, i);
    forall k | k in pos' && Placed(dst', pos'[k]) ensures OnPath(dst', hash(k), pos'[k]) {
      if k == key {
        SearchedPath(dst', hash(key), d);
      } else {
        FillKeepsPath(dst, dst', hash(k), pos[k]);
      }
    }
    forall p: nat | OldLive(src, p) || Placed(dst', p) ensures keys'[p] in pos' && pos'[keys'[p]] == p {
      if p != i {
        assert OldLive(src, p) || Placed(dst, p);
      }
    }
    forall p: nat ensures !(OldLive(src, p) && Placed(dst', p)) {
      assert p != i && Placed(dst', p) ==> Placed(dst, p);
    }
  }

  // Exchanging the entry in hand with the one that is kicked out of bucket `i`.
  lemma KickOut<K(!new), V>(hash: K -> nat, src: seq<Flag>, dst: seq<Flag>, keys: seq<K>, vals: seq<V>,
                     M: map<K, V>, pos: map<K, nat>, key: K, d: nat)
    requires Rehashing(hash, src, dst, keys, vals, M, pos)
    requires key in M && key !in pos && d < |dst|
    requires forall s :: 0 <= s < d ==> !dst[Probe(hash(key), s, |dst|)].empty
    requires dst[Probe(hash(key), d, |dst|)].empty
    requires OldLive(src, Probe(hash(key), d, |dst|))
    ensures var i := Probe(hash(key), d, |dst|);
      && keys[i] in pos && vals[i] == M[keys[i]]
      && Rehashing(hash, src[i := src[i].(del := true)], dst[i := dst[i].(empty := false)],
                   keys[i := key], vals[i := M[key]], M, (pos - {keys[i]})[key := i])
  {
    var i := Probe(hash(key), d, |dst|);
    TakeOut(hash, src, dst, keys, vals, M, pos, i);
    PutDown(hash, src[i := src[i].(del := true)], dst, keys, vals, M, pos - {keys[i]}, key, d);
  }

  lemma FewerLive(src: seq<Flag>, i: nat)
    requires OldLive(src, i)
    ensures |LiveSet(src[i := src[i].(del := true)])| < |LiveSet(src)|
  {
    assert LiveSet(src[i := src[i].(del := true)]) == LiveSet(src) - {i};
  }

  lemma RehashStart<K(!new), V>(hash: K -> nat, size: nat, nOccupied: nat, upperBound: nat,
                         src: seq<Flag>, keys: seq<K>, vals: seq<V>, index: map<K, nat>,
                         dst: seq<Flag>, keys': seq<K>, vals': seq<V>)
    requires TableInv(hash, size, nOccupied, upperBound, src, keys, vals, index)
    requires IsPow2(|dst|) && forall p :: 0 <= p < |dst| ==> dst[p] == EMPTY
    requires keys <= keys' && vals <= vals' && |keys'| == |vals'| && |dst| <= |keys'|
    ensures Rehashing(hash, src, dst, keys', vals', MapOf(vals, index), index)
  {
  }

  lemma RehashDone<K(!new), V>(hash: K -> nat, src: seq<Flag>, dst: seq<Flag>, keys: seq<K>, vals: seq<V>,
                        M: map<K, V>, pos: map<K, nat>)
    requires Rehashing(hash, src, dst, keys, vals, M, pos)
    requires pos.Keys == M.Keys && forall p: nat :: !OldLive(src, p)
    requires 4 <= |dst| <= MAX_BUCKETS && |M| <= UpperBound(|dst|)
    ensures TableInv(hash, |M|, |M|, UpperBound(|dst|), dst, keys[..|dst|], vals[..|dst|], pos)
    ensures MapOf(vals[..|dst|], pos) == M
  {
    assert forall k :: k in pos ==> Placed(dst, pos[k]);
    forall j | 0 <= j < |dst| && Live(dst[j]) ensures keys[j] in pos && pos[keys[j]] == j {
      assert Placed(dst, j);
    }
    forall p | p in Occupied(dst) ensures keys[p] in pos && pos[keys[p]] == p {
      assert Placed(dst, p);
    }
    BijectionCount(Occupied(dst), keys, pos);
    assert |pos| == |pos.Keys| == |M.Keys| == |M|;
  }
}
