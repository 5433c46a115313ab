/**
 The open-addressing hash table. Keys are compared with `==`; the hash
 function is a parameter of the table. `index` is the specification's view: the
 bucket of each key that is present.
 */
module KHash {
  import opened Probing
  import opened Buckets

  class Table<K(==,0,!new), V(0)> {
    const hash: K -> nat
    var nBuckets: nat
    var size: nat
    var nOccupied: nat
    var upperBound: nat
    var flags: array<Flag>
    var keys: array<K>
    var vals: array<V>
    ghost var index: map<K, nat>

    ghost predicate Separate()
      reads this
    {
      flags as object != keys && flags as object != vals && keys as object != vals
    }

    ghost predicate Valid()
      reads this, flags, keys, vals
    {
      && Separate()
      && flags.Length == nBuckets
      && TableInv(hash, size, nOccupied, upperBound, flags[..], keys[..], vals[..], index)
    }

    // The finite map that the table represents.
    ghost function Contents(): (m: map<K, V>)
      requires Valid()
      reads this, flags, keys, vals
      ensures m.Keys == index.Keys && |m| == size
    {
      MapOf(vals[..], index)
    }

    constructor (hash: K -> nat)
      ensures Valid() && Contents() == map[] && nBuckets == 0
      ensures this.hash == hash
      ensures fresh(flags) && fresh(keys) && fresh(vals)
    {
      this.hash := hash;
      nBuckets, size, nOccupied, upperBound := 0, 0, 0, 0;
      flags, keys, vals := new Flag[0], new K[0], new V[0];
      index := map[];
      new;
      Emptied(hash, 0, flags[..], keys[..], vals[..]);
    }

    // The bucket of `key`, or `nBuckets` when it is absent.
    method Get(key: K) returns (r: nat)
      requires Valid()
      ensures r <= nBuckets
      ensures r < nBuckets <==> key in Contents()
      ensures r < nBuckets ==> Live(flags[r]) && keys[r] == key && vals[r] == Contents()[key]
    {
      hide Indexed, Reachable, Occupied, Depth, IsPow2, UpperBound;
      if nBuckets == 0 {
        assert index == map[] by { NoBuckets(flags[..], keys[..], index); }
        return 0;
      }
      ghost var h, n := hash(key), nBuckets;
      var i := hash(key) % nBuckets;
      var last, step := i, 0;
      while !flags[i].empty && (flags[i].del || keys[i] != key)
        invariant step < 2 * n - 1 && i == Probe(h, step, n)
        invariant Passed(flags[..], keys[..], key, h, step)
        decreases 2 * n - step
      {
        ProbeStep(h, step, nBuckets);
        step := step + 1;
        i := (i + step) % nBuckets;
        FirstReturn(h, step, n);
        if i == last {
          FullCircle(flags[..], keys[..], index, key, h, step);
          return nBuckets;
        }
      }
      StopsEarly(flags[..], keys[..], key, h, step);
      SearchResult(hash, flags[..], keys[..], index, key, step);
      return if flags[i].empty || flags[i].del then nBuckets else i;
    }

    // kh_value(h, x) = v
    method SetValue(x: nat, v: V)
      requires Valid() && x < nBuckets && Live(flags[x])
      modifies vals
      ensures Valid()
      ensures Contents() == old(Contents())[keys[x] := v]
    {
      hide Indexed, Reachable, Occupied, IsPow2, UpperBound, MapOf;
      ghost var was := vals[..];
      Overwritten(hash, size, nOccupied, upperBound, flags[..], keys[..], was, index, x, v);
      vals[x] := v;
      assert vals[..] == was[x := v];
    }

    // Marks bucket `x` as deleted; no effect on a bucket that holds no key.
    method Del(x: nat)
      requires Valid() && x <= nBuckets
      modifies this`size, this`index, flags
      ensures Valid()
      ensures Contents() ==
        if x < nBuckets && old(Live(flags[x])) then old(Contents() - {keys[x]}) else old(Contents())
    {
      if x != nBuckets && Live(flags[x]) {
        Bury(x);
      }
    }

    method Bury(x: nat)
      requires Valid() && x < nBuckets && Live(flags[x])
      modifies this`size, this`index, flags
      ensures Valid() && Contents() == old(Contents()) - {keys[x]}
    {
      hide Indexed, Reachable, Occupied, IsPow2, UpperBound;
      ghost var fs, ks, vs := flags[..], keys[..], vals[..];
      Deletion(hash, size, nOccupied, upperBound, fs, ks, vs, index, x);
      flags[x] := flags[x].(del := true);
      size := size - 1;
      index := index - {keys[x]};
      assert flags[..] == fs[x := fs[x].(del := true)] && keys[..] == ks && vals[..] == vs;
    }

    method Clear()
      requires Valid()
      modifies this`size, this`nOccupied, this`index, flags
      ensures Valid()
      ensures Contents() == map[] && nOccupied == 0
    {
      if nBuckets != 0 {
        forall p | 0 <= p < flags.Length {
          flags[p] := EMPTY;
        }
        size, nOccupied, index := 0, 0, map[];
        Emptied(hash, upperBound, flags[..], keys[..], vals[..]);
      } else {
        assert MapOf(vals[..], index) == map[];
      }
    }

    // How the counters relate.
    lemma Sizes()
      requires Valid()
      ensures size <= nBuckets <= MAX_BUCKETS && size <= nOccupied
      ensures nBuckets < MAX_BUCKETS ==> nOccupied <= upperBound
      ensures nBuckets > 0 ==> IsPow2(nBuckets) && 4 <= nBuckets && upperBound == UpperBound(nBuckets) < nBuckets
      ensures nBuckets == 0 ==> size == 0 && upperBound == 0
    {
      FullTable(flags[..], keys[..], index);
      SizeCountsLive(flags[..], keys[..], index);
    }

    // The search of kh_put: the bucket of `key` when present, otherwise the
    // last deleted bucket seen or else the empty one that ended the search. In
    // a table of live buckets only it comes back to where it began.
    method FindSite(key: K) returns (x: nat, ghost d: nat)
      requires Valid() && nBuckets != 0
      ensures x < nBuckets && (key in index ==> x == index[key] && Live(flags[x]) && keys[x] == key)
      ensures key !in index ==> (Live(flags[x]) <==> size == nBuckets)
      ensures key !in index && size != nBuckets ==> d < nBuckets && x == Probe(hash(key), d, nBuckets)
      ensures key !in index && size != nBuckets ==>
        forall s :: 0 <= s < d ==> !flags[Probe(hash(key), s, nBuckets)].empty
      ensures key !in index && nOccupied < nBuckets ==> LastFree(flags[..], hash(key), d)
    {
      hide Indexed, Reachable, Occupied, Depth, IsPow2, UpperBound, LastFree, LastDeleted, AllLive;
      ghost var h, n, fs, ks, deleted := hash(key), nBuckets, flags[..], keys[..], false;
      FullTable(fs, ks, index);
      var i := hash(key) % nBuckets;
      var step := 0;
      x, d := nBuckets, 0;
      if flags[i].empty {
        x := i;
        NothingSeen(fs, h);
        SearchResult(hash, fs, ks, index, key, 0);
        SearchEnds(fs, h, 0, 0, false);
      } else {
        var site, last := nBuckets, i;
        NothingSeen(fs, h);
        while !flags[i].empty && (flags[i].del || keys[i] != key)
          invariant step < 2 * n - 1 && i == Probe(h, step, n)
          invariant Passed(fs, ks, key, h, step)
          invariant x == n && (deleted <==> site < n)
            && (deleted ==> d < step && site == Probe(h, d, n) && fs[site].del)
          invariant site <= n && if deleted then LastDeleted(fs, h, step, d) else AllLive(fs, h, step)
          decreases 2 * n - step
        {
          PassedOne(fs, h, step, d, deleted);
          if flags[i].del {
            site, d, deleted := i, step, true;
          }
          ProbeStep(h, step, nBuckets);
          step := step + 1;
          i := (i + step) % nBuckets;
          FirstReturn(h, step, n);
          if i == last {
            SearchCircles(fs, ks, index, key, h, step, d, deleted);
            x := site;
            break;
          }
        }
        if i != last || step == 0 {
          StopsEarly(fs, ks, key, h, step);
          SearchResult(hash, fs, ks, index, key, step);
          if flags[i].empty {
            SearchEnds(fs, h, step, d, deleted);
          }
        }
        if x == nBuckets {
          if flags[i].empty && site != nBuckets {
            x := site;
          } else {
            x, d := i, step;
          }
        } else {
          d := Depth(h, x, n);
        }
      }
    }

    // The second half of kh_put: search, then claim a bucket. `ret` is 0 when
    // the key was there, 1 when an empty bucket was filled, 2 when a deleted
    // one was reused. A table of live buckets only has none for a new key.
    method Claim(key: K) returns (x: nat, ret: int)
      requires Valid() && nBuckets != 0
      requires nOccupied < upperBound || nBuckets == MAX_BUCKETS
      modifies this`size, this`nOccupied, this`index, flags, keys
      ensures Valid() && x < nBuckets && Live(flags[x])
      ensures keys[x] == key <==> key in old(Contents()) || old(size) < nBuckets
      ensures ret == (if old(Live(flags[x])) then 0 else if old(flags[x].empty) then 1 else 2)
      ensures ret == 0 <==> key in old(Contents()) || old(size) == nBuckets
      ensures Contents() == if ret == 0 then old(Contents()) else old(Contents())[key := vals[x]]
      ensures nOccupied == old(nOccupied) + if ret == 1 then 1 else 0
      ensures ret == 2 ==> old(nOccupied > size)
    {
      hide Indexed, Reachable, Occupied, LastFree, IsPow2, UpperBound;
      Sizes();
      ghost var d;
      x, d := FindSite(key);
      if flags[x].del && !flags[x].empty {
        Tombstone(flags[..], keys[..], index, x);
      }
      if flags[x].empty {
        Fill(x, key, d, 1);
        ret := 1;
      } else if flags[x].del {
        Fill(x, key, d, 0);
        ret := 2;
      } else {
        LiveKey(flags[..], keys[..], index, x);
        ret := 0;
      }
    }

    // Writes the key, clears both flag bits and counts the entry; `grow` is
    // what the count of occupied buckets grows by.
    method Fill(x: nat, key: K, ghost d: nat, grow: nat)
      requires Valid() && (nOccupied < upperBound || nBuckets == MAX_BUCKETS) && key !in index
      requires d < nBuckets && x == Probe(hash(key), d, nBuckets) && !Live(flags[x])
      requires forall s :: 0 <= s < d ==> !flags[Probe(hash(key), s, nBuckets)].empty
      requires grow == if flags[x].empty then 1 else 0
      modifies this`size, this`nOccupied, this`index, flags, keys
      ensures Valid() && Live(flags[x]) && keys[x] == key
      ensures Contents() == old(Contents())[key := vals[x]]
      ensures nOccupied == old(nOccupied) + grow
    {
      hide Indexed, Reachable, Occupied, IsPow2, UpperBound;
      ghost var fs, ks, vs := flags[..], keys[..], vals[..];
      Insertion(hash, size, nOccupied, upperBound, fs, ks, vs, index, key, d);
      keys[x] := key;
      flags[x] := flags[x].(empty := false, del := false);
      size, nOccupied := size + 1, nOccupied + grow;
      index := index[key := x];
      assert flags[..] == fs[x := LIVE] && keys[..] == ks[x := key] && vals[..] == vs;
    }

    // The first empty bucket of the new table on the probe path of `key`.
    method FindEmpty(dst: array<Flag>, key: K) returns (i: nat, ghost d: nat)
      requires IsPow2(dst.Length) && |Occupied(dst[..])| < dst.Length
      ensures d < dst.Length && i == Probe(hash(key), d, dst.Length) && dst[i].empty
      ensures forall s :: 0 <= s < d ==> !dst[Probe(hash(key), s, dst.Length)].empty
    {
      ghost var h, n := hash(key), dst.Length;
      ghost var bound := SearchBound(dst[..], h);
      i := hash(key) % dst.Length;
      var step := 0;
      while !dst[i].empty
        invariant step <= bound && i == Probe(h, step, n)
        invariant forall s :: 0 <= s < step ==> !dst[Probe(h, s, n)].empty
        decreases bound - step
      {
        ProbeStep(h, step, n);
        step := step + 1;
        i := (i + step) % dst.Length;
      }
      d := step;
    }

    // Moves the entry of bucket `j` to its place in the new table, kicking out
    // every entry not yet moved that is in the way and moving it likewise.
    method MoveEntry(src: array<Flag>, dst: array<Flag>, ks: array<K>, vs: array<V>, j: nat,
                     ghost M: map<K, V>, ghost pos0: map<K, nat>)
      returns (ghost pos: map<K, nat>)
      requires src != dst && ks as object != vs
      requires src as object != ks && src as object != vs && dst as object != ks && dst as object != vs
      requires Rehashing(hash, src[..], dst[..], ks[..], vs[..], M, pos0) && pos0.Keys == M.Keys
      requires OldLive(src[..], j) && |M| < dst.Length
      modifies src, dst, ks, vs
      ensures Rehashing(hash, src[..], dst[..], ks[..], vs[..], M, pos) && pos.Keys == M.Keys
      ensures forall p :: 0 <= p < src.Length && Live(src[p]) ==> old(Live(src[p])) && p != j
    {
      hide Rehashing, Occupied;
      var key, val;
      key, val, pos := PickUp(src, dst, ks, vs, j, M, pos0);
      while true
        invariant Rehashing(hash, src[..], dst[..], ks[..], vs[..], M, pos)
        invariant key in M && val == M[key] && pos.Keys == M.Keys - {key}
        invariant forall p :: 0 <= p < src.Length && Live(src[p]) ==> old(Live(src[p])) && p != j
        decreases |LiveSet(src[..])|
      {
        RoomLeft(hash, src[..], dst[..], ks[..], vs[..], M, pos);
        var i; ghost var d;
        i, d := FindEmpty(dst, key);
        if i < src.Length && Live(src[i]) {
          key, val, pos := Exchange(src, dst, ks, vs, i, key, val, M, pos, d);
        } else {
          pos := Settle(src, dst, ks, vs, i, key, val, M, pos, d);
          break;
        }
      }
    }

    // Takes the entry of bucket `j` into hand.
    method PickUp(src: array<Flag>, dst: array<Flag>, ks: array<K>, vs: array<V>, j: nat,
                  ghost M: map<K, V>, ghost pos0: map<K, nat>)
      returns (key: K, val: V, ghost pos: map<K, nat>)
      requires src != dst && ks as object != vs
      requires src as object != ks && src as object != vs && dst as object != ks && dst as object != vs
      requires Rehashing(hash, src[..], dst[..], ks[..], vs[..], M, pos0) && pos0.Keys == M.Keys
      requires OldLive(src[..], j)
      modifies src
      ensures Rehashing(hash, src[..], dst[..], ks[..], vs[..], M, pos)
      ensures key in M && val == M[key] && pos.Keys == M.Keys - {key}
      ensures src[..] == old(src[..])[j := old(src[j]).(del := true)]
    {
      TakeOut(hash, src[..], dst[..], ks[..], vs[..], M, pos0, j);
      key, val := ks[j], vs[j];
      pos := pos0 - {key};
      ghost var src', dst', ks', vs' := src[..][j := src[j].(del := true)], dst[..], ks[..], vs[..];
      src[j] := src[j].(del := true);
      assert src[..] == src' && dst[..] == dst' && ks[..] == ks' && vs[..] == vs';
    }

    // Writes the entry in hand into a bucket that holds nothing.
    method Settle(src: array<Flag>, dst: array<Flag>, ks: array<K>, vs: array<V>, i: nat, key: K, val: V,
                  ghost M: map<K, V>, ghost pos: map<K, nat>, ghost d: nat)
      returns (ghost pos': map<K, nat>)
      requires src != dst && ks as object != vs
      requires src as object != ks && src as object != vs && dst as object != ks && dst as object != vs
      requires Rehashing(hash, src[..], dst[..], ks[..], vs[..], M, pos)
      requires key in M && val == M[key] && pos.Keys == M.Keys - {key}
      requires d < dst.Length && i == Probe(hash(key), d, dst.Length) && dst[i].empty
      requires forall s :: 0 <= s < d ==> !dst[Probe(hash(key), s, dst.Length)].empty
      requires !(i < src.Length && Live(src[i]))
      modifies dst, ks, vs
      ensures Rehashing(hash, src[..], dst[..], ks[..], vs[..], M, pos') && pos'.Keys == M.Keys
    {
      PutDown(hash, src[..], dst[..], ks[..], vs[..], M, pos, key, d);
      ghost var src', dst' := src[..], dst[..][i := dst[i].(empty := false)];
      ghost var ks', vs' := ks[..][i := key], vs[..][i := val];
      dst[i] := dst[i].(empty := false);
      ks[i] := key;
      vs[i] := val;
      assert dst[..] == dst' && ks[..] == ks' && vs[..] == vs' && src[..] == src';
      pos' := pos[key := i];
    }

    // Swaps the entry in hand with the one that sits in the way.
    method Exchange(src: array<Flag>, dst: array<Flag>, ks: array<K>, vs: array<V>, i: nat, key: K, val: V,
                    ghost M: map<K, V>, ghost pos: map<K, nat>, ghost d: nat)
      returns (key': K, val': V, ghost pos': map<K, nat>)
      requires src != dst && ks as object != vs
      requires src as object != ks && src as object != vs && dst as object != ks && dst as object != vs
      requires Rehashing(hash, src[..], dst[..], ks[..], vs[..], M, pos)
      requires key in M && val == M[key] && pos.Keys == M.Keys - {key}
      requires d < dst.Length && i == Probe(hash(key), d, dst.Length) && dst[i].empty
      requires forall s :: 0 <= s < d ==> !dst[Probe(hash(key), s, dst.Length)].empty
      requires i < src.Length && Live(src[i])
      modifies src, dst, ks, vs
      ensures Rehashing(hash, src[..], dst[..], ks[..], vs[..], M, pos')
      ensures key' in M && val' == M[key'] && pos'.Keys == M.Keys - {key'}
      ensures src[..] == old(src[..])[i := old(src[i]).(del := true)]
      ensures |LiveSet(src[..])| < old(|LiveSet(src[..])|)
    {
      KickOut(hash, src[..], dst[..], ks[..], vs[..], M, pos, key, d);
      FewerLive(src[..], i);
      ghost var dst', ks', vs', src' := dst[..][i := dst[i].(empty := false)], ks[..][i := key], vs[..][i := val],
        src[..][i := src[i].(del := true)];
      dst[i] := dst[i].(empty := false);
      key', ks[i] := ks[i], key;
      val', vs[i] := vs[i], val;
      src[i] := src[i].(del := true);
      assert dst[..] == dst' && ks[..] == ks' && vs[..] == vs' && src[..] == src';
      pos' := (pos - {key'})[key := i];
    }

    static method Realloc<T(0)>(a: array<T>, n: nat) returns (b: array<T>)
      ensures fresh(b) && b.Length == n
      ensures if a.Length <= n then a[..] <= b[..] else b[..] == a[..n]
    {
      b := new T[n];
      for i := 0 to if a.Length < n then a.Length else n
        invariant b[..i] == a[..i]
      {
        b[i] := a[i];
      }
    }

    // Rehashes into `Capacity(request)` buckets, unless the entries would not
    // fit there.
    method Resize(request: nat)
      requires Valid() && request < 0x1_0000_0000
      modifies this, flags, keys, vals
      ensures Valid() && Contents() == old(Contents())
      ensures if old(size) < UpperBound(Capacity(request))
              then nBuckets == Capacity(request) && nOccupied == size
              else unchanged(this) && unchanged(flags) && unchanged(keys) && unchanged(vals)
      ensures flags == old(flags) || fresh(flags)
      ensures keys == old(keys) || fresh(keys)
      ensures vals == old(vals) || fresh(vals)
    {
      var n := Capacity(request);
      if size < UpperBound(n) {
        Rehash(n);
      }
    }

    // The key and value arrays are shared by the old and the new table: they
    // are extended before the entries move and cut afterwards. Only the flags
    // exist twice.
    method Rehash(n: nat)
      requires Valid() && IsPow2(n) && 4 <= n <= MAX_BUCKETS && size < UpperBound(n)
      modifies this, flags, keys, vals
      ensures Valid() && Contents() == old(Contents())
      ensures nBuckets == n && nOccupied == size
      ensures fresh(flags)
      ensures keys == old(keys) || fresh(keys)
      ensures vals == old(vals) || fresh(vals)
    {
      hide Rehashing, Reachable, Occupied, IsPow2, UpperBound;
      ghost var M := Contents();
      ghost var fs, ks, vs := flags[..], keys[..], vals[..];
      var dst := new Flag[n](_ => EMPTY);
      Extend(n);
      RehashStart(hash, size, nOccupied, upperBound, fs, ks, vs, index, dst[..], keys[..], vals[..]);
      index := MoveAll(dst, M, index);
      assert size == |M|;
      Adopt(dst);
    }

    method Extend(n: nat)
      requires Separate() && keys.Length == vals.Length == nBuckets
      modifies this`keys, this`vals
      ensures Separate()
      ensures keys == old(keys) || fresh(keys)
      ensures vals == old(vals) || fresh(vals)
      ensures keys.Length == vals.Length == if nBuckets < n then n else nBuckets
      ensures old(keys[..]) <= keys[..] && old(vals[..]) <= vals[..]
    {
      if nBuckets < n {
        keys := Realloc(keys, n);
        vals := Realloc(vals, n);
      }
    }

    method Cut(n: nat)
      requires keys as object != vals && n <= keys.Length && keys.Length == vals.Length
      modifies this`keys, this`vals
      ensures keys as object != vals
      ensures keys[..] == old(keys[..n]) && vals[..] == old(vals[..n])
      ensures keys == old(keys) || fresh(keys)
      ensures vals == old(vals) || fresh(vals)
    {
      if keys.Length > n {
        keys := Realloc(keys, n);
        vals := Realloc(vals, n);
      } else {
        assert keys[..] == keys[..n] && vals[..] == vals[..n];
      }
    }

    // Installs the new flags and cuts the arrays down to the new capacity.
    method Adopt(dst: array<Flag>)
      requires dst as object != keys && dst as object != vals && keys as object != vals
      requires keys.Length == vals.Length >= dst.Length
      requires TableInv(hash, size, size, UpperBound(dst.Length), dst[..],
                        keys[..dst.Length], vals[..dst.Length], index)
      modifies this`flags, this`keys, this`vals, this`nBuckets, this`nOccupied, this`upperBound
      ensures Valid() && Contents() == old(MapOf(vals[..dst.Length], index))
      ensures nBuckets == dst.Length && nOccupied == size && flags == dst
      ensures keys == old(keys) || fresh(keys)
      ensures vals == old(vals) || fresh(vals)
    {
      hide Indexed, Reachable, Occupied, IsPow2, UpperBound;
      Cut(dst.Length);
      flags := dst;
      nBuckets := dst.Length;
      nOccupied := size;
      upperBound := UpperBound(dst.Length);
    }

    // The rehashing loop over the old table.
    method MoveAll(dst: array<Flag>, ghost M: map<K, V>, ghost pos0: map<K, nat>) returns (ghost pos: map<K, nat>)
      requires Separate() && dst != flags && dst as object != keys && dst as object != vals
      requires flags.Length == nBuckets
      requires Rehashing(hash, flags[..], dst[..], keys[..], vals[..], M, pos0) && pos0.Keys == M.Keys
      requires 4 <= dst.Length <= MAX_BUCKETS && |M| < UpperBound(dst.Length)
      modifies flags, dst, keys, vals
      ensures TableInv(hash, |M|, |M|, UpperBound(dst.Length), dst[..], keys[..dst.Length], vals[..dst.Length], pos)
      ensures MapOf(vals[..dst.Length], pos) == M
    {
      hide Rehashing, Occupied, IsPow2;
      pos := pos0;
      var j := 0;
      while j != nBuckets
        invariant 0 <= j <= nBuckets
        invariant Rehashing(hash, flags[..], dst[..], keys[..], vals[..], M, pos) && pos.Keys == M.Keys
        invariant forall p :: 0 <= p < j ==> !Live(flags[p])
      {
        if Live(flags[j]) {
          pos := MoveEntry(flags, dst, keys, vals, j, M, pos);
        }
        j := j + 1;
      }
      RehashDone(hash, flags[..], dst[..], keys[..], vals[..], M, pos);
    }

    // The first half of kh_put: at the load bound, rehash into as many buckets
    // when most of them are not live, else into twice as many. A table of the
    // largest capacity with live buckets for at least half stays as it is: the
    // request for one more bucket overflows.
    method MakeRoom()
      requires Valid()
      modifies this, flags, keys, vals
      ensures Valid() && Contents() == old(Contents()) && nBuckets != 0
      ensures nOccupied < upperBound <==>
        old(nOccupied < upperBound || nBuckets > 2 * size || nBuckets < MAX_BUCKETS)
      ensures nOccupied < upperBound || nBuckets == MAX_BUCKETS
      ensures nBuckets ==
        if old(nOccupied < upperBound || nBuckets > 2 * size || nBuckets == MAX_BUCKETS) then old(nBuckets)
        else if old(nBuckets) == 0 then 4 else 2 * old(nBuckets)
      ensures if old(nOccupied < upperBound) || nOccupied >= upperBound
              then unchanged(this) && unchanged(flags) && unchanged(keys) && unchanged(vals)
              else nOccupied == size
      ensures flags == old(flags) || fresh(flags)
      ensures keys == old(keys) || fresh(keys)
      ensures vals == old(vals) || fresh(vals)
    {
      hide Valid, Contents;
      Sizes();
      if nOccupied >= upperBound {
        RehashFull();
      }
    }

    method RehashFull()
      requires Valid() && nOccupied >= upperBound
      modifies this, flags, keys, vals
      ensures Valid() && Contents() == old(Contents())
      ensures nBuckets ==
        if old(nBuckets > 2 * size || nBuckets == MAX_BUCKETS) then old(nBuckets)
        else if old(nBuckets) == 0 then 4 else 2 * old(nBuckets)
      ensures if old(nBuckets > 2 * size || nBuckets < MAX_BUCKETS)
              then nBuckets != 0 && nOccupied == size < upperBound
              else unchanged(this) && unchanged(flags) && unchanged(keys) && unchanged(vals)
      ensures flags == old(flags) || fresh(flags)
      ensures keys == old(keys) || fresh(keys)
      ensures vals == old(vals) || fresh(vals)
    {
      hide Valid, Contents, IsPow2, UpperBound, Capacity;
      var request := if nBuckets > 2 * size % 0x1_0000_0000 then nBuckets - 1 else nBuckets + 1;
      Sizes();
      RequestAtBound(nBuckets, size, request);
      Resize(request);
      Sizes();
    }

    // kh_put: the bucket of `key`, claimed if necessary. It fails exactly for
    // a new key in a table of the largest capacity whose buckets are all live:
    // the result is then the bucket of some other key, as if that were it.
    method Put(key: K) returns (x: nat, ret: int)
      requires Valid()
      modifies this, flags, keys, vals
      ensures Valid() && x < nBuckets && Live(flags[x])
      ensures keys[x] == key <==> key in old(Contents()) || old(size) < MAX_BUCKETS
      ensures ret == 0 <==> key in old(Contents()) || old(size) == MAX_BUCKETS
      ensures ret == 0 || ret == 1 || ret == 2
      ensures Contents() == if ret == 0 then old(Contents()) else old(Contents())[key := vals[x]]
      ensures nBuckets ==
        if old(nOccupied < upperBound || nBuckets > 2 * size || nBuckets == MAX_BUCKETS) then old(nBuckets)
        else if old(nBuckets) == 0 then 4 else 2 * old(nBuckets)
      ensures old(nOccupied < upperBound) ==> (ret == 1 <==> old(flags[x].empty))
      ensures old(nOccupied >= upperBound && nBuckets < MAX_BUCKETS) ==> ret != 2
      ensures flags == old(flags) || fresh(flags)
      ensures keys == old(keys) || fresh(keys)
      ensures vals == old(vals) || fresh(vals)
    {
      hide Valid, Contents;
      Sizes();
      MakeRoom();
      Sizes();
      x, ret := Claim(key);
    }
  }

  // The keys are the numbers below n.
  ghost predicate Filled(t: Table<nat, int>, n: nat)
    reads t, t.flags, t.keys, t.vals
  {
    t.Valid() && t.size == n && forall k: nat :: k in t.Contents() <==> k < n
  }

  method PutNext(t: Table<nat, int>, n: nat)
    requires Filled(t, n) && n < MAX_BUCKETS
    modifies t, t.flags, t.keys, t.vals
    ensures Filled(t, n + 1)
    ensures t.flags == old(t.flags) || fresh(t.flags)
    ensures t.keys == old(t.keys) || fresh(t.keys)
    ensures t.vals == old(t.vals) || fresh(t.vals)
  {
    hide t.Valid, t.Contents;
    ghost var m := t.Contents();
    var x, ret := t.Put(n);
    assert t.Contents().Keys == m.Keys + {n};
  }

  // With any hash function, 2^31 puts of different keys fill a new table.
  method FillTable(hash: nat -> nat) returns (t: Table<nat, int>)
    ensures fresh(t) && fresh(t.flags) && fresh(t.keys) && fresh(t.vals)
    ensures Filled(t, MAX_BUCKETS) && t.hash == hash
  {
    t := new Table(hash);
    assert |t.Contents()| == 0;
    var n: nat := 0;
    while n < MAX_BUCKETS
      invariant n <= MAX_BUCKETS && fresh(t) && fresh(t.flags) && fresh(t.keys) && fresh(t.vals)
      invariant Filled(t, n) && t.hash == hash
    {
      PutNext(t, n);
      n := n + 1;
    }
  }

  // The next key finds no place: put returns the bucket of another one.
  method FailingPut(hash: nat -> nat) returns (t: Table<nat, int>, x: nat, ret: int)
    ensures Filled(t, MAX_BUCKETS) && t.hash == hash
    ensures x < t.nBuckets && ret == 0 && t.keys[x] < MAX_BUCKETS
  {
    t := FillTable(hash);
    hide t.Contents;
    ghost var m := t.Contents();
    x, ret := t.Put(MAX_BUCKETS);
    assert t.keys[x] in m;
  }

  // ----- Runs of puts and deletes -----

  datatype Op<K> = PutKey(key: K) | DelKey(key: K)

  function LiveAfter<K>(ops: seq<Op<K>>): set<K> {
    if ops == [] then {}
    else
      After(LiveAfter(ops[..|ops| - 1]), ops[|ops| - 1])
  }

  function After<K>(keys: set<K>, op: Op<K>): set<K> {
    match op
    case PutKey(key) => keys + {key}
    case DelKey(key) => keys - {key}
  }

  lemma LiveAfterOne<K>(ops: seq<Op<K>>, i: nat)
    requires i < |ops|
    ensures LiveAfter(ops[..i + 1]) == After(LiveAfter(ops[..i]), ops[i])
  {
    assert ops[..i + 1][..i] == ops[..i];
  }

  method PutOne<K(==,0,!new), V(0)>(t: Table<K, V>, key: K)
    requires t.Valid()
    modifies t, t.flags, t.keys, t.vals
    ensures t.Valid()
    ensures t.nBuckets <= 4 || t.nBuckets == old(t.nBuckets) || t.nBuckets <= 4 * old(t.size)
    ensures old(key in t.index || t.size < MAX_BUCKETS) ==> t.index.Keys == old(t.index.Keys) + {key}
    ensures t.flags == old(t.flags) || fresh(t.flags)
    ensures t.keys == old(t.keys) || fresh(t.keys)
    ensures t.vals == old(t.vals) || fresh(t.vals)
  {
    hide t.Valid, t.Contents;
    ghost var m := t.Contents();
    var x, ret := t.Put(key);
    assert ret != 0 ==> t.Contents().Keys == m.Keys + {key};
  }

  method DeleteOne<K(==,0,!new), V(0)>(t: Table<K, V>, key: K)
    requires t.Valid()
    modifies t`size, t`index, t.flags
    ensures t.Valid()
    ensures t.index.Keys == old(t.index.Keys) - {key}
  {
    hide t.Valid, t.Contents;
    ghost var m := t.Contents();
    var x := t.Get(key);
    t.Del(x);
    if key in m {
      assert t.Contents() == m - {key};
    } else {
      assert t.Contents() == m;
    }
  }

  lemma OneMore<K>(keys: set<K>, op: Op<K>)
    requires op.PutKey? && op.key !in keys
    ensures |After(keys, op)| == |keys| + 1
  {
  }

  method DoOne<K(==,0,!new), V(0)>(t: Table<K, V>, op: Op<K>)
    requires t.Valid()
    modifies t, t.flags, t.keys, t.vals
    ensures t.Valid() && t.nBuckets <= MAX_BUCKETS
    ensures t.nBuckets <= 4 || t.nBuckets == old(t.nBuckets) || t.nBuckets <= 4 * |old(t.index.Keys)|
    ensures |After(old(t.index.Keys), op)| <= MAX_BUCKETS ==> t.index.Keys == After(old(t.index.Keys), op)
    ensures t.flags == old(t.flags) || fresh(t.flags)
    ensures t.keys == old(t.keys) || fresh(t.keys)
    ensures t.vals == old(t.vals) || fresh(t.vals)
  {
    hide Table.Valid, Table.Contents;
    SizeIsCount(t);
    match op
    case PutKey(key) =>
      if key !in t.index {
        OneMore(t.index.Keys, op);
      }
      PutOne(t, key);
      SizeIsCount(t);
    case DelKey(key) =>
      DeleteOne(t, key);
  }

  lemma SizeIsCount<K(0,!new), V(0)>(t: Table<K, V>)
    requires t.Valid()
    ensures t.nBuckets <= MAX_BUCKETS && t.size == |t.index.Keys|
  {
    t.Sizes();
  }

  // Calls on a new table of which no more than m keys are live at any time
  // never leave it with more than four buckets for each of them.
  method Churn<K(==,0,!new), V(0)>(hash: K -> nat, ops: seq<Op<K>>, m: nat) returns (t: Table<K, V>)
    requires forall i :: 0 <= i <= |ops| ==> |LiveAfter(ops[..i])| <= m
    ensures fresh(t) && t.Valid() && t.hash == hash
    ensures t.nBuckets <= 4 || t.nBuckets <= 4 * m
    ensures m <= MAX_BUCKETS ==> t.Contents().Keys == LiveAfter(ops)
  {
    hide Table.Valid, Table.Contents;
    t := new Table(hash);
    assert ops[..0] == [];
    var i := 0;
    while i < |ops|
      invariant i <= |ops|
      invariant fresh(t) && fresh(t.flags) && fresh(t.keys) && fresh(t.vals)
      invariant t.Valid() && t.hash == hash
      invariant t.nBuckets <= 4 || t.nBuckets <= 4 * m
      invariant m <= MAX_BUCKETS ==> t.index.Keys == LiveAfter(ops[..i])
    {
      LiveAfterOne(ops, i);
      DoOne(t, ops[i]);
      i := i + 1;
    }
    assert ops[..i] == ops;
  }
}
