/**
 A program and its buffers: what a call does to one of them, and to the family.
 */
module BufferProgram {
  import opened Bytes
  import opened ByteBuffer
  import opened BufferFamily

  ghost predicate Describes(f: Fields, b: Buffer)
    reads b
  {
    f == Fields(b.mem, b.start, b.size, b.read, b.write, b.reserved, b.refcount, b.src, b.cache, b.views, f.depth)
  }

  lemma DescribesAll(f: Fields, b: Buffer)
    ensures Describes(f, b) <==> f == Fields(b.mem, b.start, b.size, b.read, b.write, b.reserved,
                                             b.refcount, b.src, b.cache, b.views, f.depth)
  {
  }

  // Bytes laid over others leave a window as it was exactly when they are the
  // same bytes as far as they fall into it.
  predicate Spares(m: seq<byte>, at: nat, data: seq<byte>, from: nat, to: nat)
    requires to <= |m|
  {
    forall p :: from <= p < to && at <= p < at + |data| ==> data[p - at] == m[p]
  }

  lemma SparesExactly(m: seq<byte>, w: seq<byte>, at: nat, data: seq<byte>, from: nat, to: nat)
    requires Overlays(w, m, at, data) && from <= to <= |m|
    ensures |w| == |m| && (Window(w, from, to) == Window(m, from, to) <==> Spares(m, at, data, from, to))
  {
    if Window(w, from, to) == Window(m, from, to) {
      forall p | from <= p < to && at <= p < at + |data|
        ensures data[p - at] == m[p]
      {
        assert Window(w, from, to)[p - from] == w[p];
      }
    }
  }

  lemma InBounds(b: Buffer)
    requires b.Valid()
    ensures b.read <= b.write <= b.size && b.reserved <= b.size && b.start + b.size <= b.mem.Length
    ensures b.src == null ==> b.start == 0 && b.size == b.mem.Length
  {
  }

  // No buffer of the family is the given one, or keeps it.
  ghost predicate NoBuffer(m: Family, b: Buffer) {
    b !in m && forall c :: c in m ==> m[c].cache != b
  }

  ghost predicate NoMemory(m: Family, mem: array<byte>) {
    forall c :: c in m ==> m[c].mem != mem
  }

  class Program {
    var handles: seq<Buffer>
    var live: set<Buffer>
    ghost var family: Family

    ghost predicate Valid()
      reads this`live, this`family, live
    {
      family.Keys == live && Sound(family) && forall b :: b in live ==> Describes(family[b], b)
    }

    constructor ()
      ensures Valid() && live == {} && handles == []
    {
      handles, live, family := [], {}, map[];
    }

    lemma IsValid(b: Buffer)
      requires Valid() && b in live
      ensures b.Valid() && (b.WriteLocked() <==> Locked(family[b]))
    {
      hide Hangs, Owns;
      assert Describes(family[b], b) && Whole(family[b], b) && Holds(family, b);
      assert forall v :: v in b.views ==> Describes(family[v], v);
    }

    // The reference count of a live buffer is the number of live views of it,
    // and it is locked exactly while it is a view or there is one.
    lemma Counts(b: Buffer)
      requires Valid() && b in live
      ensures b.Valid() && b.refcount == |set v | v in live && v.src == b|
      ensures b.WriteLocked() <==> b.src != null || exists v :: v in live && v.src == b
    {
      hide Sound, Whole, Hangs, Holds, Owns, b.Valid;
      IsValid(b);
      CountsViews(family, b);
      assert forall v :: v in live ==> Describes(family[v], v);
      assert (set v | v in live && v.src == b) == set v | v in family && family[v].src == b;
    }

    lemma InFamily(b: Buffer)
      requires Valid() && b in live
      ensures Sound(family) && b in family && family[b].mem == b.mem && family[b].src == b.src
      ensures family[b].cache == b.cache && (b.src != null ==> b.src in live)
      ensures family.Keys == live
    {
      assert Describes(family[b], b) && Hangs(family, b);
    }

    // The fields and the unread bytes of a live buffer.
    lemma Lengths(b: Buffer)
      requires Valid() && b in live
      ensures b.Valid() && b in family && Describes(family[b], b)
      ensures b.read <= b.write <= b.size && |b.Contents()| == b.write - b.read
      ensures b.Contents() == Window(b.mem[..], b.start + b.read, b.start + b.write)
    {
      IsValid(b);
      assert Describes(family[b], b);
    }

    method Create(size: nat, prependSize: nat) returns (b: Buffer?)
      requires Valid()
      modifies this`live, this`family
      ensures Valid() && (b == null <==> size == 0)
      ensures b == null ==> family == old(family)
      ensures b != null ==> fresh(b) && fresh(b.mem) && b.mem.Length == size + prependSize
      ensures b != null ==> family == Created(old(family), b, b.mem, prependSize)
      ensures b != null ==> NoBuffer(old(family), b) && NoMemory(old(family), b.mem)
      ensures b != null ==> b.Valid() && b.Contents() == [] && b.mem[..] == Zeros(size + prependSize)
    {
      hide Whole, Hangs, Holds, Owns;
      if size == 0 {
        return null;
      }
      var buf := new Buffer(size, prependSize);
      b := buf;
      CreatedSound(family, buf, buf.mem, prependSize);
      family := Created(family, buf, buf.mem, prependSize);
      live := live + {buf};
    }

    // The family while a call changes b.
    ghost predicate ValidBut(b: Buffer, f: Fields)
      reads this, live
    {
      && family.Keys == live && Sound(family) && b in live && family[b] == f
      && forall c :: c in live && c != b ==> Describes(family[c], c)
    }

    lemma But(b: Buffer) returns (f: Fields)
      requires Valid() && b in live
      ensures ValidBut(b, f) && Describes(f, b) && f == family[b]
    {
      f := family[b];
    }

    lemma Back(b: Buffer, f: Fields)
      requires ValidBut(b, f) && Describes(f, b)
      ensures Valid()
    {
    }

    // The read and write indices of b have changed.
    ghost method Reindex(b: Buffer, f: Fields)
      requires ValidBut(b, f) && b.Valid() && Describes(f.(read := b.read, write := b.write), b)
      modifies this`family
      ensures Valid() && family == Indexed(old(family), b, b.read, b.write)
    {
      hide Whole, Hangs, Holds, Owns;
      InBounds(b);
      IndexedSound(family, b, b.read, b.write);
      family := Indexed(family, b, b.read, b.write);
    }

    // The memory of b has changed, or its size and indices.
    ghost method Remap(b: Buffer, f: Fields)
      requires ValidBut(b, f) && b.Valid() && !Locked(f)
      requires Describes(f.(mem := b.mem, size := b.size, read := b.read, write := b.write), b)
      requires b.mem == f.mem || forall c :: c in live ==> family[c].mem != b.mem
      modifies this`family
      ensures Valid() && family == Moved(old(family), b, b.mem, b.read, b.write)
    {
      hide Whole, Hangs, Holds, Owns;
      InBounds(b);
      MovedSound(family, b, b.mem, b.read, b.write);
      family := Moved(family, b, b.mem, b.read, b.write);
    }

    lemma Known(m: array<byte>)
      requires Valid()
      ensures forall v :: v in live ==> family[v].mem == v.mem
    {
      assert forall v :: v in live ==> Describes(family[v], v);
    }

    method Append(b: Buffer, data: seq<byte>) returns (ok: bool)
      requires Valid() && b in live
      modifies this`family, b`mem, b`size, b`read, b`write, b.mem
      ensures ok <==> !old(Locked(family[b])) && (|data| <= old(b.Writable()) || b.reserved <= old(b.read))
      ensures ok ==> Valid() && family == Moved(old(family), b, b.mem, b.read, b.write)
      ensures ok ==> b.Valid() && b.Contents() == old(b.Contents()) + data
      ensures ok ==> b.read == AppendRead(old(family[b]), |data|) && b.size == AppendSize(old(family[b]), |data|)
      ensures ok ==> b.write == b.read + old(b.write - b.read) + |data|
      ensures ok ==> if b.size == old(b.size) then b.mem == old(b.mem) else fresh(b.mem) && NoMemory(old(family), b.mem)
      ensures b.mem == old(b.mem) || fresh(b.mem)
    {
      hide Valid, Sound, Describes, b.Valid, b.Contents;
      IsValid(b);
      Known(b.mem);
      ghost var f := But(b);
      DescribesAll(f, b);
      ok := b.Append(data);
      if ok {
        DescribesAll(f.(mem := b.mem, size := b.size, read := b.read, write := b.write), b);
        Remap(b, f);
      }
    }

    // Shrinking can leave the indices behind the end of the memory.
    method Shrink(b: Buffer, reserve: nat) returns (ok: bool)
      requires Valid() && b in live
      modifies this`family, b`mem, b`size
      ensures ok <==> !old(Locked(family[b])) && b.read <= b.reserved + reserve
      ensures ok ==> Valid() && family == Moved(old(family), b, b.mem, b.read, b.write)
      ensures ok ==> fresh(b.mem) && NoMemory(old(family), b.mem)
      ensures ok ==> b.Valid() && b.mem[..] == Zeros(b.reserved) + old(b.Contents()) + Zeros(reserve)
    {
      hide Valid, Sound, Describes, b.Valid, b.Contents;
      IsValid(b);
      Known(b.mem);
      ghost var f := But(b);
      DescribesAll(f, b);
      ok := b.Shrink(reserve);
      ok := ok && b.read <= b.reserved + reserve;
      if ok {
        DescribesAll(f.(mem := b.mem, size := b.size, read := b.read, write := b.write), b);
        Remap(b, f);
      }
    }

    method Retrieve(b: Buffer, len: nat) returns (ok: bool)
      requires Valid() && b in live
      modifies this`family, b`read, b`write
      ensures Valid() && b.Valid() && (ok <==> len <= |old(b.Contents())|)
      ensures b.Contents() == if ok then old(b.Contents())[len..] else old(b.Contents())
      ensures family == Indexed(old(family), b, b.read, b.write)
      ensures ok ==> var all := len == |old(b.Contents())|;
        && b.read == (if all then b.reserved else old(b.read) + len)
        && b.write == if all then b.reserved else old(b.write)
    {
      hide Valid, Sound, Describes, b.Valid, b.Contents;
      IsValid(b);
      ghost var f := But(b);
      DescribesAll(f, b);
      ok := b.Retrieve(len);
      DescribesAll(f.(read := b.read, write := b.write), b);
      Reindex(b, f);
    }

    // A header is written over what is in front of the unread bytes.
    method Prepend(b: Buffer, data: seq<byte>) returns (ok: bool)
      requires Valid() && b in live
      modifies this`family, b`read, b.mem
      ensures Valid() && b.Valid() && (ok <==> |data| <= old(b.read))
      ensures b.read == old(b.read) - if ok then |data| else 0
      ensures b.Contents() == if ok then data + old(b.Contents()) else old(b.Contents())
      ensures family == Indexed(old(family), b, b.read, b.write)
      ensures if ok then Overlays(b.mem[..], old(b.mem[..]), b.start + b.read, data) else b.mem[..] == old(b.mem[..])
    {
      hide Valid, Sound, Describes, b.Valid, b.Contents, Overlays;
      IsValid(b);
      ghost var f := But(b);
      DescribesAll(f, b);
      ok := b.Prepend(data);
      DescribesAll(f.(read := b.read, write := b.write), b);
      Reindex(b, f);
    }

    // What another buffer sees of the memory stays exactly where the header
    // spares it.
    method PrependSeenBy(b: Buffer, data: seq<byte>, ghost v: Buffer) returns (ok: bool)
      requires Valid() && b in live && v in live && v != b && v.mem == b.mem
      modifies this`family, b`read, b.mem
      ensures Valid() && v.Valid() && v.start + v.write <= b.mem.Length
      ensures v.Contents() == old(v.Contents()) <==>
        (ok ==> Spares(old(b.mem[..]), b.start + b.read, data, v.start + v.read, v.start + v.write))
    {
      hide Valid, Sound, Describes, v.Valid, Overlays, Spares, Window;
      ghost var m := b.mem[..];
      IsValid(v);
      InBounds(v);
      ok := Prepend(b, data);
      IsValid(v);
      if ok {
        SparesExactly(m, b.mem[..], b.start + b.read, data, v.start + v.read, v.start + v.write);
      }
    }

    // The family when b has lent a view that is not in it yet.
    ghost predicate HasLent(b: Buffer, view: Buffer, n: nat)
      reads this`family, family.Keys, b, view
    {
      && MayLend(family, b, view, n)
      && (forall c :: c in family && c != b ==> Describes(family[c], c))
      && Describes(Lent(family, b, view, n)[b], b) && Describes(Lent(family, b, view, n)[view], view)
    }

    ghost method Adopt(b: Buffer, view: Buffer, n: nat)
      requires HasLent(b, view, n) && live == family.Keys + {view}
      modifies this`family
      ensures Valid() && family == Lent(old(family), b, view, n)
    {
      hide Whole, Hangs, Holds, Owns, Describes;
      LentSound(family, b, view, n);
      family := Lent(family, b, view, n);
    }

    // What b keeps is not live and kept by no other.
    lemma Kept(b: Buffer)
      requires Valid() && b in live
      ensures b.cache !in live && forall c :: c in live ==> family[c].cache == c.cache
      ensures b.cache != null ==> forall c :: c in live && c.cache == b.cache ==> c == b
    {
      assert forall c :: c in live ==> Describes(family[c], c);
      assert Holds(family, b);
    }

    method Borrow(b: Buffer, sz: int) returns (view: Buffer, ghost n: nat)
      requires Valid() && b in live && sz > 0
      modifies b`refcount, b`cache, b`views, if b.cache == null then {} else {b.cache}
      ensures n == if sz > b.write - b.read then b.write - b.read else sz
      ensures HasLent(b, view, n) && family.Keys == live && view !in live
      ensures if old(b.cache) == null then fresh(view) && NoBuffer(family, view) else view == old(b.cache)
    {
      hide Valid, Sound, Describes, b.Valid, b.Contents, MayLend, Lent;
      IsValid(b);
      Kept(b);
      ghost var f := But(b);
      DescribesAll(f, b);
      InBounds(b);
      n := if sz > b.write - b.read then b.write - b.read else sz;
      view := b.ReadonlyView(sz);
      LendsLawfully(family, b, view, n);
      DescribesAll(Lent(family, b, view, n)[b], b);
      DescribesAll(Lent(family, b, view, n)[view], view);
    }

    method View(b: Buffer, sz: int) returns (view: Buffer?)
      requires Valid() && b in live
      modifies this`live, this`family, b`refcount, b`cache, b`views, if b.cache == null then {} else {b.cache}
      ensures Valid() && (view == null <==> sz <= 0)
      ensures view == null ==> family == old(family)
      ensures view != null && old(b.cache) == null ==> NoBuffer(old(family), view)
      ensures view != null ==> view !in old(live) && if old(b.cache) == null then fresh(view) else view == old(b.cache)
      ensures var unread := b.write - b.read;
        view != null ==> unread >= 0 && family == Lent(old(family), b, view, if sz > unread then unread else sz)
    {
      hide Valid, HasLent, Lent;
      if sz <= 0 {
        return null;
      }
      ghost var n;
      view, n := Borrow(b, sz);
      live := live + {view};
      Adopt(b, view, n);
    }

    // The family when b has been released and is still in it.
    ghost predicate HasReleased(b: Buffer)
      reads this`family, family.Keys
    {
      && MayRelease(family, b)
      && (forall c :: c in family && c != b && c != family[b].src ==> Describes(family[c], c))
      && (family[b].src != null ==> Describes(Released(family, b)[family[b].src], family[b].src))
    }

    ghost method Drop(b: Buffer)
      requires HasReleased(b) && live == family.Keys - {b}
      modifies this`family
      ensures Valid() && family == Released(old(family), b)
    {
      hide Whole, Hangs, Holds, Owns, Describes;
      ReleasedSound(family, b);
      family := Released(family, b);
    }

    lemma ParentOf(b: Buffer)
      requires Valid() && b in live && b.src != null
      ensures b.src in live && b in b.src.views && b.src != b
    {
      assert Describes(family[b], b) && Describes(family[b.src], b.src) && Hangs(family, b);
    }

    // Releasing what has a parent, and what has none.
    method ReleaseView(b: Buffer, p: Buffer) returns (ok: bool)
      requires Valid() && b in live && b.src == p
      modifies p`refcount, p`views, p`cache
      ensures ok <==> old(family[b]).views == {}
      ensures if ok then HasReleased(b) && family.Keys == live else Valid()
    {
      hide Valid, Sound, Describes, b.Valid, HasReleased;
      ParentOf(b);
      IsValid(b);
      IsValid(p);
      ghost var f := But(p);
      DescribesAll(family[b], b);
      DescribesAll(f, p);
      ok := b.Release();
      if !ok {
        DescribesAll(f, p);
        Back(p, f);
      } else {
        CountIs(p);
        DescribesAll(Without(f, b), p);
        Parted(b, p, f);
      }
    }

    lemma Parted(b: Buffer, p: Buffer, f: Fields)
      requires ValidBut(p, f) && b in live && b != p && family[b].src == p && family[b].views == {}
      requires Describes(Without(f, b), p)
      ensures HasReleased(b)
    {
      hide Sound, Describes, MayRelease, Released;
      ReleasesLawfully(family, b);
    }

    // Nothing that has a view is released.
    method Release(b: Buffer) returns (ok: bool)
      requires Valid() && b in live
      modifies this`live, this`family, b.Parent()`refcount, b.Parent()`views, b.Parent()`cache
      ensures Valid() && (ok <==> old(family[b]).views == {})
      ensures family == if ok then Released(old(family), b) else old(family)
    {
      hide Valid, HasReleased, Released;
      if b.src == null {
        ok := ReleaseRoot(b);
      } else {
        ok := ReleaseView(b, b.src);
      }
      if ok {
        live := live - {b};
        Drop(b);
      }
    }

    method ReleaseRoot(b: Buffer) returns (ok: bool)
      requires Valid() && b in live && b.src == null
      ensures ok <==> family[b].views == {}
      ensures ok ==> HasReleased(b) && family.Keys == live
    {
      hide Sound, b.Valid;
      IsValid(b);
      ok := b.Release();
      if ok {
        ReleasesLawfully(family, b);
      }
    }
  }

  lemma CountIs(b: Buffer)
    requires b.Valid()
    ensures b.refcount == |b.views|
  {
  }

  lemma ReleasesLawfully(m: Family, b: Buffer)
    requires Sound(m) && b in m && m[b].views == {} && (m[b].src != null ==> m[b].src in m && m[b].src != b)
    ensures MayRelease(m, b) && Released(m, b).Keys == m.Keys - {b}
    ensures var src := m[b].src; src != null ==> Released(m, b)[src] == Without(m[src], b)
  {
  }

  lemma LendsLawfully(m: Family, b: Buffer, view: Buffer, n: nat)
    requires Sound(m) && b in m && view !in m && n <= m[b].write - m[b].read
    requires forall c :: c in m && m[c].cache == view ==> c == b
    ensures MayLend(m, b, view, n) && Lent(m, b, view, n).Keys == m.Keys + {view}
    ensures var f := m[b];
      && Lent(m, b, view, n)[b] == f.(refcount := f.refcount + 1, views := f.views + {view}, cache := null)
      && Lent(m, b, view, n)[view] == Fields(f.mem, f.start + f.read, n, 0, n, 0, 0, b, null, {}, f.depth + 1)
  {
  }

  // Views of views are lent, to any depth, and released again, the last one
  // first. Nothing has changed then but what is kept for the next view.
  method LendAndRelease(b: Buffer, ns: seq<int>)
    requires b.Valid() && forall i :: 0 <= i < |ns| ==> ns[i] > 0
    modifies b`refcount, b`cache, b`views, if b.cache == null then {} else {b.cache}
    ensures b.Valid() && b.views == old(b.views)
    decreases |ns|
  {
    if ns != [] {
      var view := b.ReadonlyView(ns[0]);
      LendAndRelease(view, ns[1..]);
      var ok := view.Release();
      assert ok;
    }
  }

  // So a buffer grows again after that.
  method AppendAfterViews(size: nat, prependSize: nat, data: seq<byte>, more: seq<byte>, ns: seq<int>)
    returns (b: Buffer)
    requires size > 0 && forall i :: 0 <= i < |ns| ==> ns[i] > 0
    ensures b.Valid() && b.Contents() == data + more
  {
    hide Buffer.Valid, Buffer.Contents, Window;
    b := new Buffer(size, prependSize);
    var ok := b.Append(data);
    LendAndRelease(b, ns);
    ok := b.Append(more);
  }

  lemma Readable(b: Buffer)
    requires b.Valid()
    ensures b.read <= b.write && |b.Contents()| == b.write - b.read && b.cache != b
  {
  }

  // An outstanding view does not keep its bytes: what it begins with is read of
  // its parent, a header of that length is put in its place, and the view shows
  // the header. That changes it exactly when the header is something else.
  method OverwriteView(b: Buffer, view: Buffer, header: seq<byte>)
    requires b.Valid() && view.Valid() && view in b.views && view.mem == b.mem
    requires view.start + view.read == b.start + b.read && view.write - view.read <= b.write - b.read
    requires 0 < |header| <= view.write - view.read && |header| < b.write - b.read
    modifies b`read, b`write, b.mem
    ensures b.Valid() && view.Valid() && view in b.views
    ensures b.Contents() == header + old(b.Contents())[|header|..]
    ensures view.Contents() == header + old(view.Contents())[|header|..]
    ensures view.Contents() == old(view.Contents()) <==> header == old(view.Contents())[..|header|]
  {
    hide b.Valid, b.Contents, Overlays;
    Readable(b);
    InBounds(b);
    InBounds(view);
    Prefix(b, view);
    ghost var n, was, seen := view.write - view.read, b.Contents(), view.Contents();
    var ok := b.Retrieve(|header|);
    ok := b.Prepend(header);
    InBounds(b);
    Readable(b);
    Prefix(b, view);
    Replaced(was, header, n);
  }

  // A window at the same place shows a prefix.
  lemma Prefix(b: Buffer, v: Buffer)
    requires b.read <= b.write && b.start + b.write <= b.mem.Length && v.read <= v.write && v.mem == b.mem
    requires v.start + v.read == b.start + b.read && v.write - v.read <= b.write - b.read
    ensures v.Contents() == b.Contents()[..v.write - v.read]
  {
    hide Window;
    Take(b.mem[..], b.start + b.read, b.start + b.write, v.write - v.read);
  }

  lemma Replaced(s: seq<byte>, header: seq<byte>, n: nat)
    requires |header| <= n <= |s|
    ensures (header + s[|header|..])[..n] == header + s[..n][|header|..]
    ensures header + s[..n][|header|..] == s[..n] <==> header == s[..n][..|header|]
  {
    assert s[..n] == s[..n][..|header|] + s[..n][|header|..];
    assert (header + s[..n][|header|..])[..|header|] == header;
  }
}
