/**
 The calls of a program on its buffers, and runs of them, are those that are
 described for worlds.
 */
module BufferRuns {
  import opened Bytes
  import opened ByteBuffer
  import opened BufferFamily
  import opened BufferProgram
  import opened BufferTraces

  // What stands in some memory.
  ghost function Image(mems: set<array<byte>>): (i: Images)
    reads mems
    ensures i.Keys == mems && forall a :: a in i ==> |i[a]| == a.Length
  {
    map a | a in mems :: a[..]
  }

  ghost function Of(p: Program): World
    reads p, Memory(p.family)
  {
    World(p.handles, p.family, Image(Memory(p.family)))
  }

  lemma SameImage(s: set<array<byte>>, t: set<array<byte>>)
    ensures forall a :: a in s && a in t ==> Image(s)[a] == Image(t)[a]
  {
  }

  lemma ImageAt(m: Family, b: Buffer)
    requires b in m
    ensures m[b].mem in Memory(m) && Image(Memory(m))[m[b].mem] == m[b].mem[..]
  {
  }

  ghost function Caches(m: Family): set<Buffer> {
    set b | b in m && m[b].cache != null :: m[b].cache
  }

  // All that calls may change.
  ghost function Footprint(m: Family): set<object> {
    var buffers: set<object>, mems: set<object> := m.Keys + Caches(m), Memory(m);
    buffers + mems
  }

  // The footprint of a family that has more buffers or memory.
  lemma FootprintIn(m: Family, n: Family, bs: set<Buffer>, mems: set<array<byte>>)
    requires n.Keys + Caches(n) <= m.Keys + Caches(m) + bs && Memory(n) <= Memory(m) + mems
    ensures forall o :: o in Footprint(n) ==> o in Footprint(m) || o in bs || o in mems
  {
  }

  lemma CacheIn(m: Family, b: Buffer)
    requires b in m
    ensures b in Footprint(m) && m[b].mem in Footprint(m)
    ensures m[b].cache != null ==> m[b].cache in Footprint(m)
    ensures m[b].src in m ==> m[b].src in Footprint(m)
  {
  }

  // ----- Single calls -----

  lemma IndexedMemory(m: Family, b: Buffer, read: nat, write: nat)
    requires b in m
    ensures var n := Indexed(m, b, read, write); Memory(n) == Memory(m) && Footprint(n) == Footprint(m)
  {
    var n := Indexed(m, b, read, write);
    assert forall c :: c in m ==> c in n && n[c].mem == m[c].mem && n[c].cache == m[c].cache;
  }

  lemma SameButNothing(was: Images, x: set<array<byte>>)
    ensures SameBut(was, was, x)
  {
  }

  method StepRetrieve(p: Program, b: Buffer, len: nat) returns (ok: bool)
    requires p.Valid() && b in p.live
    modifies p`family, b`read, b`write
    ensures b in old(p.family) && (ok <==> old(p.family)[b].read + len <= old(p.family)[b].write)
    ensures ok ==> p.Valid() && NextRetrieve(old(Of(p)), b, len, Of(p))
    ensures ok ==> Footprint(p.family) == old(Footprint(p.family))
  {
    hide p.Valid, Sound, Image, Memory, Caches, Footprint, Indexed, SameBut, b.Contents;
    p.InFamily(b);
    p.Lengths(b);
    ghost var m, was := p.family, Image(Memory(p.family));
    ok := p.Retrieve(b, len);
    IndexedMemory(m, b, b.read, b.write);
    SameButNothing(was, {});
  }

  method StepPrepend(p: Program, b: Buffer, data: seq<byte>) returns (ok: bool)
    requires p.Valid() && b in p.live
    modifies p`family, b`read, b.mem
    ensures b in old(p.family) && (ok <==> |data| <= old(p.family)[b].read)
    ensures ok ==> p.Valid() && NextPrepend(old(Of(p)), b, data, Of(p))
    ensures ok ==> Footprint(p.family) == old(Footprint(p.family))
  {
    hide p.Valid, Sound, Image, Memory, Caches, Footprint, Indexed, Overlays, b.Contents;
    p.InFamily(b);
    p.Lengths(b);
    ghost var m, x, s := p.family, b.mem, Memory(p.family);
    ghost var rest := Image(s - {x});
    ImageAt(m, b);
    SameImage(s, s - {x});
    ok := p.Prepend(b, data);
    if ok {
      assert Image(s - {x}) == rest;
      SameImage(s, s - {x});
      ImageAt(m, b);
      IndexedMemory(m, b, b.read, b.write);
    }
  }

  lemma MovedMemory(m: Family, b: Buffer, mem: array<byte>, read: nat, write: nat)
    requires b in m
    ensures var n := Moved(m, b, mem, read, write);
      && mem in Memory(n) && Memory(n) <= Memory(m) + {mem}
      && forall o :: o in Footprint(n) ==> o in Footprint(m) || o == mem
  {
    hide Footprint;
    var n := Moved(m, b, mem, read, write);
    assert n[b].mem == mem && forall c :: c in m ==> n[c].cache == m[c].cache && (c == b || n[c] == m[c]);
    FootprintIn(m, n, {}, {mem});
  }

  lemma NotIn(m: Family, mem: array<byte>)
    ensures NoMemory(m, mem) ==> mem !in Memory(m)
  {
  }

  // The unread bytes are the contents.
  lemma HoldsContents(f: Fields, image: Images, bytes: seq<byte>, s: seq<byte>)
    requires f.mem in image && f.read <= f.write && f.start + f.write <= |image[f.mem]|
    requires bytes == Window(image[f.mem], f.start + f.read, f.start + f.write)
    ensures Holding(f, image, s) <==> s == bytes
  {
  }

  lemma HoldsNow(p: Program, b: Buffer)
    requires p.Valid() && b in p.live
    ensures b.Valid() && b in p.family && forall s :: Holding(p.family[b], Of(p).image, s) <==> s == b.Contents()
  {
    hide p.Valid, Sound, Image, Memory;
    p.Lengths(b);
    ImageAt(p.family, b);
    forall s
      ensures Holding(p.family[b], Of(p).image, s) <==> s == b.Contents()
    {
      InBounds(b);
      DescribesAll(p.family[b], b);
      HoldsContents(p.family[b], Of(p).image, b.Contents(), s);
    }
  }

  lemma AppendIs(w: World, b: Buffer, data: seq<byte>, w': World, c: seq<byte>)
    requires b in w.family && b in w'.family && w'.handles == w.handles && w.family[b].read <= w.family[b].write
    requires var f, g := w.family[b], w'.family[b];
      && w'.family == Moved(w.family, b, g.mem, g.read, g.write)
      && g.read == AppendRead(f, |data|) && g.write == g.read + (f.write - f.read) + |data|
      && g.mem.Length == AppendSize(f, |data|)
      && (if g.mem.Length == f.size then g.mem == f.mem else g.mem !in Memory(w.family))
      && SameBut(w.image, w'.image, {f.mem})
      && (forall s :: Holding(f, w.image, s) <==> s == c)
      && forall s :: Holding(g, w'.image, s) <==> s == c + data
    ensures NextAppend(w, b, data, w')
  {
    hide Holding, Memory, SameBut, Moved;
  }

  method StepAppend(p: Program, b: Buffer, data: seq<byte>) returns (ok: bool)
    requires p.Valid() && b in p.live
    modifies p`family, b`mem, b`size, b`read, b`write, b.mem
    ensures b in old(p.family)
    ensures var f := old(p.family)[b];
      ok <==> !Locked(f) && (f.write + |data| <= f.size || f.reserved <= f.read)
    ensures ok ==> p.Valid() && NextAppend(old(Of(p)), b, data, Of(p))
    ensures ok ==> forall o :: o in Footprint(p.family) ==> o in old(Footprint(p.family)) || fresh(o)
  {
    hide p.Valid, Sound, Image, Memory, Caches, Footprint, Moved, Holding, NoMemory, AppendRead, AppendSize;
    hide b.Contents, b.Valid, NextAppend;
    p.InFamily(b);
    p.Lengths(b);
    HoldsNow(p, b);
    ghost var m, s, x, w, c := p.family, Memory(p.family), b.mem, Of(p), b.Contents();
    CacheIn(m, b);
    ghost var rest := Image(s - {x});
    SameImage(s, s - {x});
    ok := p.Append(b, data);
    if ok {
      assert Image(s - {x}) == rest;
      SameImage(Memory(p.family), s - {x});
      MovedMemory(m, b, b.mem, b.read, b.write);
      NotIn(m, b.mem);
      p.InFamily(b);
      p.Lengths(b);
      HoldsNow(p, b);
      InBounds(b);
      AppendIs(w, b, data, Of(p), c);
    }
  }

  method StepShrink(p: Program, b: Buffer, reserve: nat) returns (ok: bool)
    requires p.Valid() && b in p.live
    modifies p`family, b`mem, b`size
    ensures b in old(p.family)
    ensures var f := old(p.family)[b]; ok <==> !Locked(f) && f.read <= f.reserved + reserve
    ensures ok ==> p.Valid() && NextShrink(old(Of(p)), b, reserve, Of(p))
    ensures ok ==> forall o :: o in Footprint(p.family) ==> o in old(Footprint(p.family)) || fresh(o)
  {
    hide p.Valid, Sound, Image, Memory, Caches, Footprint, Moved, Holding, NoMemory;
    hide b.Contents, b.Valid;
    p.InFamily(b);
    p.Lengths(b);
    HoldsNow(p, b);
    ghost var m, s, was := p.family, Memory(p.family), Image(Memory(p.family));
    ok := p.Shrink(b, reserve);
    if ok {
      assert Image(s) == was;
      SameImage(Memory(p.family), s);
      MovedMemory(m, b, b.mem, b.read, b.write);
      NotIn(m, b.mem);
      p.InFamily(b);
      InBounds(b);
      ImageAt(p.family, b);
    }
  }

  lemma LentMemory(m: Family, b: Buffer, view: Buffer, n: nat)
    requires b in m && view !in m
    ensures var l := Lent(m, b, view, n); Memory(l) == Memory(m) && view in l
    ensures forall o :: o in Footprint(Lent(m, b, view, n)) ==> o in Footprint(m) || o == view
  {
    hide Footprint;
    var l := Lent(m, b, view, n);
    assert forall c :: c in m ==> c in l && l[c].mem == m[c].mem;
    assert m[b].mem in Memory(m);
    FootprintIn(m, l, {view}, {});
  }

  method StepView(p: Program, b: Buffer, sz: int) returns (ok: bool)
    requires p.Valid() && b in p.live
    modifies p, b`refcount, b`cache, b`views, if b.cache == null then {} else {b.cache}
    ensures b in old(p.family) && (ok <==> sz > 0)
    ensures ok ==> p.Valid() && NextView(old(Of(p)), b, sz, Of(p))
    ensures ok ==> forall o :: o in Footprint(p.family) ==> o in old(Footprint(p.family)) || fresh(o)
  {
    hide p.Valid, Sound, Image, Memory, Caches, Footprint, Lent, SameBut;
    p.InFamily(b);
    p.Lengths(b);
    ghost var m, was := p.family, Image(Memory(p.family));
    CacheIn(m, b);
    var view := p.View(b, sz);
    ok := view != null;
    if ok {
      p.handles := p.handles + [view];
      ghost var unread := b.write - b.read;
      LentMemory(m, b, view, if sz > unread then unread else sz);
      SameButNothing(was, {});
    }
  }

  lemma ReleasedMemory(m: Family, b: Buffer)
    requires b in m && (m[b].src != null ==> m[b].src in m)
    ensures Memory(Released(m, b)) <= Memory(m)
  {
    var n := Released(m, b);
    assert forall c :: c in n ==> c in m && n[c].mem == m[c].mem;
  }

  lemma ReleasedCaches(m: Family, b: Buffer)
    requires b in m && (m[b].src != null ==> m[b].src in m)
    ensures Released(m, b).Keys <= m.Keys && Caches(Released(m, b)) <= Caches(m) + {b}
  {
    var n := Released(m, b);
    assert forall c :: c in n ==> c in m && (n[c].cache == m[c].cache || n[c].cache == b);
  }

  lemma ReleasedFootprint(m: Family, b: Buffer)
    requires b in m && (m[b].src != null ==> m[b].src in m)
    ensures forall o :: o in Footprint(Released(m, b)) ==> o in Footprint(m)
  {
    hide Footprint, Memory, Caches, Released;
    ReleasedMemory(m, b);
    ReleasedCaches(m, b);
    FootprintIn(m, Released(m, b), {}, {});
  }

  method StepRelease(p: Program, b: Buffer) returns (ok: bool)
    requires p.Valid() && b in p.live
    modifies p`live, p`family, b.Parent()`refcount, b.Parent()`views, b.Parent()`cache
    ensures b in old(p.family) && (ok <==> old(p.family)[b].views == {})
    ensures ok ==> p.Valid() && NextRelease(old(Of(p)), b, Of(p))
    ensures ok ==> forall o :: o in Footprint(p.family) ==> o in old(Footprint(p.family))
  {
    hide p.Valid, Sound, Image, Memory, Caches, Footprint, Released;
    p.InFamily(b);
    ghost var m, was := p.family, Image(Memory(p.family));
    ok := p.Release(b);
    if ok {
      assert Image(Memory(m)) == was;
      SameImage(Memory(p.family), Memory(m));
      ReleasedMemory(m, b);
      ReleasedFootprint(m, b);
    }
  }

  lemma CreatedMemory(m: Family, b: Buffer, mem: array<byte>, prependSize: nat)
    requires b !in m
    ensures var n := Created(m, b, mem, prependSize); mem in Memory(n) && b in n
    ensures forall o :: o in Footprint(Created(m, b, mem, prependSize)) ==> o in Footprint(m) || o == b || o == mem
  {
    hide Footprint;
    var n := Created(m, b, mem, prependSize);
    assert n[b].mem == mem && forall c :: c in m ==> n[c] == m[c];
    FootprintIn(m, n, {b}, {mem});
  }

  method StepCreate(p: Program, size: nat, prependSize: nat) returns (ok: bool)
    requires p.Valid()
    modifies p
    ensures ok <==> size > 0
    ensures ok ==> p.Valid() && NextCreate(old(Of(p)), size, prependSize, Of(p))
    ensures ok ==> forall o :: o in Footprint(p.family) ==> o in old(Footprint(p.family)) || fresh(o)
  {
    hide p.Valid, Sound, Image, Memory, Caches, Footprint, NoMemory;
    ghost var m, was := p.family, Image(Memory(p.family));
    var b := p.Create(size, prependSize);
    ok := b != null;
    if ok {
      p.handles := p.handles + [b];
      assert Image(Memory(m)) == was;
      SameImage(Memory(p.family), Memory(m));
      CreatedMemory(m, b, b.mem, prependSize);
      NotIn(m, b.mem);
      ImageAt(p.family, b);
    }
  }

  // ----- Runs -----

  lemma OfIs(p: Program)
    requires p.Valid()
    ensures Good(Of(p)) && Of(p).handles == p.handles && Of(p).family == p.family && p.live == p.family.Keys
    ensures Of(p).image.Keys == Memory(p.family) && forall a :: a in Of(p).image ==> |Of(p).image[a]| == a.Length
  {
  }

  // A call succeeds exactly when it is allowed, and does what is said of worlds.
  method Step(p: Program, call: Call) returns (ok: bool)
    requires p.Valid()
    modifies p, Footprint(p.family)
    ensures ok <==> Allowed(old(Of(p)), call)
    ensures ok ==> p.Valid() && Next(old(Of(p)), call, Of(p))
    ensures ok ==> forall o :: o in Footprint(p.family) ==> o in old(Footprint(p.family)) || fresh(o)
  {
    hide p.Valid, Of, Image, Memory, Caches, Footprint, Locked;
    hide NextCreate, NextView, NextAppend, NextShrink, NextRetrieve, NextPrepend, NextRelease, Sound;
    OfIs(p);
    ok := false;
    if call.Create? {
      ok := StepCreate(p, call.size, call.prependSize);
    } else if call.h < |p.handles| && p.handles[call.h] in p.live {
      var b := p.handles[call.h];
      p.InFamily(b);
      CacheIn(p.family, b);
      match call {
        case View(_, sz) => ok := StepView(p, b, sz);
        case Append(_, data) => ok := StepAppend(p, b, data);
        case Shrink(_, reserve) => ok := StepShrink(p, b, reserve);
        case Retrieve(_, len) => ok := StepRetrieve(p, b, len);
        case Prepend(_, data) => ok := StepPrepend(p, b, data);
        case Release(_) => ok := StepRelease(p, b);
      }
    }
    if ok {
      OfIs(p);
    }
  }

  // A sequence of calls is a run of worlds, up to the first call that is not
  // allowed.
  method Execute(p: Program, calls: seq<Call>) returns (done: nat, ghost ws: seq<World>)
    requires p.Valid()
    modifies p, Footprint(p.family)
    ensures done <= |calls| && IsRun(ws, calls[..done]) && ws[0] == old(Of(p)) && Good(ws[0])
    ensures done < |calls| ==> !Allowed(ws[done], calls[done])
    ensures done == |calls| ==> p.Valid() && Of(p) == ws[done]
  {
    hide p.Valid, Of, Image, Memory, Footprint, Next, Allowed, Good;
    OfIs(p);
    ws := [Of(p)];
    done := 0;
    while done < |calls|
      invariant done <= |calls| && IsRun(ws, calls[..done]) && p.Valid() && ws[done] == Of(p)
      invariant ws[0] == old(Of(p)) && Good(ws[0])
      invariant forall o :: o in Footprint(p.family) ==> o in old(Footprint(p.family)) || fresh(o)
    {
      var ok := Step(p, calls[done]);
      if !ok {
        return;
      }
      OneMore(ws, calls[..done], calls[done], Of(p));
      assert calls[..done] + [calls[done]] == calls[..done + 1];
      ws, done := ws + [Of(p)], done + 1;
    }
  }
}
