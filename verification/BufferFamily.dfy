/**
 The buffers of a program: it creates them, lends views of them and of views,
 and releases them in any order. What is said of them all is said of a family,
 the fields of each by the buffer.
 */
module BufferFamily {
  import opened Bytes
  import opened ByteBuffer

  // The fields of a buffer, and how often it is a view of a view.
  datatype Fields = Fields(mem: array<byte>, start: nat, size: nat, read: nat, write: nat, reserved: nat,
                           refcount: nat, src: Buffer?, cache: Buffer?, views: set<Buffer>, depth: nat)

  type Family = map<Buffer, Fields>

  // ----- What holds after every run -----

  // As every buffer by itself.
  ghost predicate Whole(f: Fields, b: Buffer) {
    && f.read <= f.write <= f.size && f.reserved <= f.size && f.start + f.size <= f.mem.Length
    && (f.src == null ==> f.start == 0 && f.size == f.mem.Length)
    && f.refcount == |f.views| && b !in f.views
  }

  // A view is known to its parent and lies in the parent's memory.
  ghost predicate Hangs(m: Family, b: Buffer)
    requires b in m
  {
    var f := m[b];
    f.src == null ||
    (f.src in m &&
     var p := m[f.src];
     b in p.views && f.mem == p.mem && p.start <= f.start && f.start + f.size <= p.start + p.size
     && f.depth == p.depth + 1)
  }

  // The views of a buffer are live, and a released one that it keeps is not
  // and is kept by no other.
  ghost predicate Holds(m: Family, b: Buffer)
    requires b in m
  {
    && (forall v :: v in m[b].views ==> v in m && m[v].src == b)
    && m[b].cache !in m
    && (m[b].cache != null ==> forall c :: c in m && m[c].cache == m[b].cache ==> c == b)
  }

  // Only views share memory.
  ghost predicate Owns(m: Family, b: Buffer)
    requires b in m
  {
    m[b].src == null ==> forall c :: c in m && m[c].src == null && m[c].mem == m[b].mem ==> c == b
  }

  ghost predicate Sound(m: Family) {
    forall b :: b in m ==> Whole(m[b], b) && Hangs(m, b) && Holds(m, b) && Owns(m, b)
  }

  ghost predicate Locked(f: Fields) {
    f.src != null || f.refcount > 0
  }

  // The reference count is the number of outstanding views, and a buffer is
  // locked exactly while it is a view or there is one of it.
  lemma CountsViews(m: Family, b: Buffer)
    requires Sound(m) && b in m
    ensures m[b].refcount == |set v | v in m && m[v].src == b|
    ensures Locked(m[b]) <==> m[b].src != null || exists v :: v in m && m[v].src == b
  {
    assert forall v :: v in m && m[v].src == b ==> Hangs(m, v);
    assert m[b].views == set v | v in m && m[v].src == b;
  }

  // What a view is in the end a view of.
  lemma {:induction false} RootOf(m: Family, v: Buffer) returns (r: Buffer)
    requires Sound(m) && v in m
    ensures r in m && m[r].src == null && m[r].mem == m[v].mem
    ensures if m[v].src == null then r == v else m[r].views != {}
    decreases m[v].depth
  {
    assert Hangs(m, v);
    if m[v].src == null {
      r := v;
    } else {
      r := RootOf(m, m[v].src);
    }
  }

  // Memory that is moved or written behind the contents has one owner.
  lemma Alone(m: Family, b: Buffer, v: Buffer)
    requires Sound(m) && b in m && v in m && !Locked(m[b]) && m[v].mem == m[b].mem
    ensures v == b
  {
    assert Whole(m[b], b) && Owns(m, b);
    var r := RootOf(m, v);
    assert Owns(m, r);
  }

  lemma OthersApart(m: Family, b: Buffer)
    requires Sound(m) && b in m
    ensures !Locked(m[b]) ==> forall v :: v in m && v != b ==> m[v].mem != m[b].mem
  {
    forall v | v in m && m[v].mem == m[b].mem && !Locked(m[b])
      ensures v == b
    {
      Alone(m, b, v);
    }
  }

  // ----- What the calls make of a family -----

  function Created(m: Family, b: Buffer, mem: array<byte>, prependSize: nat): Family {
    m[b := Fields(mem, 0, mem.Length, prependSize, prependSize, prependSize, 0, null, null, {}, 0)]
  }

  lemma CreatedSound(m: Family, b: Buffer, mem: array<byte>, prependSize: nat)
    requires Sound(m) && b !in m && prependSize <= mem.Length
    requires forall c :: c in m ==> m[c].mem != mem && m[c].cache != b
    ensures Sound(Created(m, b, mem, prependSize))
  {
    var n := Created(m, b, mem, prependSize);
    forall c | c in n
      ensures Whole(n[c], c) && Hangs(n, c) && Holds(n, c) && Owns(n, c)
    {
      assert c in m ==> Whole(m[c], c) && Hangs(m, c) && Holds(m, c) && Owns(m, c);
    }
  }

  // Reading and prepending.
  function Indexed(m: Family, b: Buffer, read: nat, write: nat): Family
    requires b in m
  {
    m[b := m[b].(read := read, write := write)]
  }

  lemma IndexedSound(m: Family, b: Buffer, read: nat, write: nat)
    requires Sound(m) && b in m && read <= write <= m[b].size
    ensures Sound(Indexed(m, b, read, write))
  {
    var n := Indexed(m, b, read, write);
    forall c | c in n
      ensures Whole(n[c], c) && Hangs(n, c) && Holds(n, c) && Owns(n, c)
    {
      hide Owns, Hangs, Holds;
      assert Whole(m[c], c);
      IndexedLinks(m, b, read, write, c);
    }
  }

  lemma IndexedLinks(m: Family, b: Buffer, read: nat, write: nat, c: Buffer)
    requires b in m && c in m && Hangs(m, c) && Holds(m, c) && Owns(m, c)
    ensures var n := Indexed(m, b, read, write); Hangs(n, c) && Holds(n, c) && Owns(n, c)
  {
  }

  // Memory of an unlocked buffer, kept or replaced.
  function Moved(m: Family, b: Buffer, mem: array<byte>, read: nat, write: nat): Family
    requires b in m
  {
    m[b := m[b].(mem := mem, size := mem.Length, read := read, write := write)]
  }

  lemma MovedSound(m: Family, b: Buffer, mem: array<byte>, read: nat, write: nat)
    requires Sound(m) && b in m && !Locked(m[b])
    requires mem == m[b].mem || forall c :: c in m ==> m[c].mem != mem
    requires read <= write <= mem.Length && m[b].reserved <= mem.Length
    ensures Sound(Moved(m, b, mem, read, write))
  {
    var n := Moved(m, b, mem, read, write);
    assert Whole(m[b], b) && m[b].views == {};
    forall c | c in n
      ensures Whole(n[c], c) && Hangs(n, c) && Holds(n, c) && Owns(n, c)
    {
      hide Owns, Hangs, Holds;
      assert Whole(m[c], c);
      MovedLinks(m, b, mem, read, write, c);
    }
  }

  lemma MovedLinks(m: Family, b: Buffer, mem: array<byte>, read: nat, write: nat, c: Buffer)
    requires b in m && c in m && Hangs(m, c) && Holds(m, c) && Owns(m, c) && m[b].src == null && m[b].views == {}
    requires mem == m[b].mem || forall c :: c in m ==> m[c].mem != mem
    ensures var n := Moved(m, b, mem, read, write);
      Hangs(n, c) && Holds(n, c) && Owns(n, c)
  {
  }

  // Where a buffer reads, and how large it is, after n bytes were appended.
  function AppendRead(f: Fields, n: nat): nat {
    if f.write + n <= f.size then f.read else f.reserved
  }

  function AppendSize(f: Fields, n: nat): nat {
    if f.write + n <= f.size || f.reserved + n + f.write <= f.read + f.size then f.size else f.write + n
  }

  function Lent(m: Family, b: Buffer, view: Buffer, n: nat): Family
    requires b in m
  {
    var f := m[b];
    m[b := f.(refcount := f.refcount + 1, views := f.views + {view}, cache := null)]
     [view := Fields(f.mem, f.start + f.read, n, 0, n, 0, 0, b, null, {}, f.depth + 1)]
  }

  // A view of n bytes of b.
  ghost predicate MayLend(m: Family, b: Buffer, view: Buffer, n: nat) {
    && Sound(m) && b in m && view !in m && n <= m[b].write - m[b].read
    && forall c :: c in m && m[c].cache == view ==> c == b
  }

  lemma LentWhole(m: Family, b: Buffer, view: Buffer, n: nat, c: Buffer)
    requires MayLend(m, b, view, n) && c in Lent(m, b, view, n)
    ensures Whole(Lent(m, b, view, n)[c], c)
  {
    hide Hangs, Owns;
    assert Whole(m[b], b) && Holds(m, b);
    assert c in m ==> Whole(m[c], c);
  }

  lemma LentHangs(m: Family, b: Buffer, view: Buffer, n: nat, c: Buffer)
    requires MayLend(m, b, view, n) && c in Lent(m, b, view, n)
    ensures Hangs(Lent(m, b, view, n), c)
  {
    hide Owns, Holds;
    if c == view {
      assert Whole(m[b], b);
    } else {
      StillHangs(m, b, view, n, c);
    }
  }

  lemma StillHangs(m: Family, b: Buffer, view: Buffer, n: nat, c: Buffer)
    requires MayLend(m, b, view, n) && c in m
    ensures Hangs(Lent(m, b, view, n), c)
  {
    hide Whole, Holds, Owns;
    var l := Lent(m, b, view, n);
    assert Hangs(m, c) && l[c].src == m[c].src && l[c].depth == m[c].depth;
    assert l[c].mem == m[c].mem && l[c].start == m[c].start && l[c].size == m[c].size;
    if m[c].src != null && m[c].src != b {
      assert l[m[c].src] == m[m[c].src];
    }
  }

  lemma LentHolds(m: Family, b: Buffer, view: Buffer, n: nat, c: Buffer)
    requires MayLend(m, b, view, n) && c in Lent(m, b, view, n)
    ensures Holds(Lent(m, b, view, n), c)
  {
    hide Hangs, Whole, Owns;
    assert Holds(m, b);
    assert c in m ==> Holds(m, c);
  }

  lemma LentOwns(m: Family, b: Buffer, view: Buffer, n: nat, c: Buffer)
    requires MayLend(m, b, view, n) && c in Lent(m, b, view, n)
    ensures Owns(Lent(m, b, view, n), c)
  {
    hide Hangs, Whole, Holds;
    assert c in m ==> Owns(m, c);
  }

  lemma LentSound(m: Family, b: Buffer, view: Buffer, n: nat)
    requires MayLend(m, b, view, n)
    ensures Sound(Lent(m, b, view, n))
  {
    hide Hangs, Whole, Holds, Owns;
    forall c | c in Lent(m, b, view, n)
      ensures Whole(Lent(m, b, view, n)[c], c) && Hangs(Lent(m, b, view, n), c)
      ensures Holds(Lent(m, b, view, n), c) && Owns(Lent(m, b, view, n), c)
    {
      LentWhole(m, b, view, n, c);
      LentHangs(m, b, view, n, c);
      LentHolds(m, b, view, n, c);
      LentOwns(m, b, view, n, c);
    }
  }

  // A parent without one of its views, which it keeps if it keeps none yet.
  function Without(p: Fields, b: Buffer): Fields {
    p.(refcount := |p.views - {b}|, views := p.views - {b}, cache := if p.cache == null then b else p.cache)
  }

  function Released(m: Family, b: Buffer): Family
    requires b in m && (m[b].src != null ==> m[b].src in m)
  {
    if m[b].src == null then m - {b} else m[m[b].src := Without(m[m[b].src], b)] - {b}
  }

  ghost predicate MayRelease(m: Family, b: Buffer) {
    Sound(m) && b in m && m[b].views == {} && (m[b].src != null ==> m[b].src in m)
  }

  lemma ReleasedWhole(m: Family, b: Buffer, c: Buffer)
    requires MayRelease(m, b) && c in Released(m, b)
    ensures Whole(Released(m, b)[c], c)
  {
    hide Hangs, Owns, Holds;
    assert Whole(m[c], c);
  }

  lemma ReleasedHangs(m: Family, b: Buffer, c: Buffer)
    requires MayRelease(m, b) && c in Released(m, b)
    ensures Hangs(Released(m, b), c)
  {
    hide Owns, Whole, Holds;
    assert Hangs(m, c);
  }

  lemma ReleasedHolds(m: Family, b: Buffer, c: Buffer)
    requires MayRelease(m, b) && c in Released(m, b)
    ensures Holds(Released(m, b), c)
  {
    hide Owns, Whole;
    assert Holds(m, c) && Holds(m, b) && Hangs(m, b);
    assert m[c].cache != b;
  }

  lemma ReleasedOwns(m: Family, b: Buffer, c: Buffer)
    requires MayRelease(m, b) && c in Released(m, b)
    ensures Owns(Released(m, b), c)
  {
    hide Whole, Holds, Hangs;
    assert Owns(m, c);
  }

  lemma ReleasedSound(m: Family, b: Buffer)
    requires MayRelease(m, b)
    ensures Sound(Released(m, b))
  {
    hide Hangs, Whole, Holds, Owns;
    forall c | c in Released(m, b)
      ensures Whole(Released(m, b)[c], c) && Hangs(Released(m, b), c)
      ensures Holds(Released(m, b), c) && Owns(Released(m, b), c)
    {
      ReleasedWhole(m, b, c);
      ReleasedHangs(m, b, c);
      ReleasedHolds(m, b, c);
      ReleasedOwns(m, b, c);
    }
  }
}
