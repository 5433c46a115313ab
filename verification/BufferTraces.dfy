/**
 Runs of a program over its buffers, as values: calls in any order, on any of
 them. A call that is not allowed is one at which the source stops, or which is
 made on a buffer that is not live.
 */
module BufferTraces {
  import opened Bytes
  import opened ByteBuffer
  import opened BufferFamily

  // A call, on a buffer by the number of its handle.
  datatype Call =
    | Create(size: nat, prependSize: nat)
    | View(h: nat, sz: int)
    | Append(h: nat, data: seq<byte>)
    | Shrink(h: nat, reserve: nat)
    | Retrieve(h: nat, len: nat)
    | Prepend(h: nat, data: seq<byte>)
    | Release(h: nat)

  type Images = map<array<byte>, seq<byte>>

  // The buffers a program was given, those that are live, and what stands in
  // their memory.
  datatype World = World(handles: seq<Buffer>, family: Family, image: Images)

  ghost function Memory(m: Family): set<array<byte>> {
    set b | b in m :: m[b].mem
  }

  predicate Usable(w: World, call: Call) {
    !call.Create? ==> call.h < |w.handles| && w.handles[call.h] in w.family
  }

  function On(w: World, call: Call): Buffer
    requires !call.Create? && Usable(w, call)
  {
    w.handles[call.h]
  }

  ghost predicate Allowed(w: World, call: Call) {
    Usable(w, call) &&
    (call.Create? ==> call.size > 0) &&
    (!call.Create? ==>
       var f := w.family[On(w, call)];
       match call
       case View(_, sz) => sz > 0
       case Append(_, data) => !Locked(f) && (f.write + |data| <= f.size || f.reserved <= f.read)
       case Shrink(_, reserve) => !Locked(f) && f.read <= f.reserved + reserve
       case Retrieve(_, len) => f.read + len <= f.write
       case Prepend(_, data) => |data| <= f.read
       case Release(_) => f.views == {}
       case _ => true)
  }

  // ----- What a call does -----

  // The memory that two worlds share holds the same, but for x.
  ghost predicate SameBut(was: Images, now: Images, x: set<array<byte>>) {
    forall a :: a in was && a in now && a !in x ==> now[a] == was[a]
  }

  // The unread bytes of a buffer.
  ghost predicate Holding(f: Fields, image: Images, bytes: seq<byte>) {
    && f.mem in image && f.read <= f.write && f.start + f.write <= |image[f.mem]|
    && Window(image[f.mem], f.start + f.read, f.start + f.write) == bytes
  }

  ghost predicate NextCreate(w: World, size: nat, prependSize: nat, w': World) {
    |w'.handles| == |w.handles| + 1 && w'.handles[..|w.handles|] == w.handles &&
    var b := w'.handles[|w.handles|];
    && b !in w.family && (forall c :: c in w.family ==> w.family[c].cache != b) && b in w'.family
    && var x := w'.family[b].mem;
       && x !in Memory(w.family) && x.Length == size + prependSize
       && w'.family == Created(w.family, b, x, prependSize)
       && SameBut(w.image, w'.image, {}) && x in w'.image && w'.image[x] == Zeros(size + prependSize)
  }

  // The struct of a released view is used again.
  ghost predicate NextView(w: World, b: Buffer, sz: nat, w': World)
    requires b in w.family
  {
    |w'.handles| == |w.handles| + 1 && w'.handles[..|w.handles|] == w.handles &&
    var f, view := w.family[b], w'.handles[|w.handles|];
    && view !in w.family && f.read <= f.write
    && (if f.cache != null then view == f.cache else forall c :: c in w.family ==> w.family[c].cache != view)
    && w'.family == Lent(w.family, b, view, if f.read + sz > f.write then f.write - f.read else sz)
    && SameBut(w.image, w'.image, {})
  }

  ghost predicate NextAppend(w: World, b: Buffer, data: seq<byte>, w': World)
    requires b in w.family
  {
    var f := w.family[b];
    var r, size := AppendRead(f, |data|), AppendSize(f, |data|);
    w'.handles == w.handles && b in w'.family && f.read <= f.write &&
    var x := w'.family[b].mem;
    && (if size == f.size then x == f.mem else x !in Memory(w.family)) && x.Length == size
    && w'.family == Moved(w.family, b, x, r, r + (f.write - f.read) + |data|)
    && SameBut(w.image, w'.image, {f.mem})
    && forall s :: Holding(f, w.image, s) ==> Holding(w'.family[b], w'.image, s + data)
  }

  ghost predicate NextShrink(w: World, b: Buffer, reserve: nat, w': World)
    requires b in w.family
  {
    var f := w.family[b];
    w'.handles == w.handles && b in w'.family && f.read <= f.write &&
    var x := w'.family[b].mem;
    && x !in Memory(w.family) && x.Length == f.reserved + (f.write - f.read) + reserve
    && w'.family == Moved(w.family, b, x, f.read, f.write)
    && SameBut(w.image, w'.image, {})
    && forall s :: Holding(f, w.image, s) ==>
         x in w'.image && w'.image[x] == Zeros(f.reserved) + s + Zeros(reserve)
  }

  ghost predicate NextRetrieve(w: World, b: Buffer, len: nat, w': World)
    requires b in w.family
  {
    var f := w.family[b];
    var all := f.read + len == f.write;
    && w'.handles == w.handles
    && w'.family == Indexed(w.family, b, if all then f.reserved else f.read + len, if all then f.reserved else f.write)
    && SameBut(w.image, w'.image, {})
  }

  ghost predicate NextPrepend(w: World, b: Buffer, data: seq<byte>, w': World)
    requires b in w.family && |data| <= w.family[b].read
  {
    var f := w.family[b];
    && w'.handles == w.handles && w'.family == Indexed(w.family, b, f.read - |data|, f.write)
    && SameBut(w.image, w'.image, {f.mem})
    && f.mem in w.image && f.mem in w'.image
    && Overlays(w'.image[f.mem], w.image[f.mem], f.start + f.read - |data|, data)
  }

  ghost predicate NextRelease(w: World, b: Buffer, w': World)
    requires b in w.family
  {
    && w'.handles == w.handles && (w.family[b].src != null ==> w.family[b].src in w.family)
    && w'.family == Released(w.family, b) && SameBut(w.image, w'.image, {})
  }

  ghost predicate Next(w: World, call: Call, w': World)
    requires Allowed(w, call)
  {
    && w'.image.Keys == Memory(w'.family) && (forall a :: a in w'.image ==> |w'.image[a]| == a.Length)
    && match call
       case Create(size, prependSize) => NextCreate(w, size, prependSize, w')
       case View(_, sz) => NextView(w, On(w, call), sz, w')
       case Append(_, data) => NextAppend(w, On(w, call), data, w')
       case Shrink(_, reserve) => NextShrink(w, On(w, call), reserve, w')
       case Retrieve(_, len) => NextRetrieve(w, On(w, call), len, w')
       case Prepend(_, data) => NextPrepend(w, On(w, call), data, w')
       case Release(_) => NextRelease(w, On(w, call), w')
  }

  // ----- What every call keeps -----

  ghost predicate Good(w: World) {
    Sound(w.family) && w.image.Keys == Memory(w.family) && forall a :: a in w.image ==> |w.image[a]| == a.Length
  }

  lemma CreateSound(w: World, size: nat, prependSize: nat, w': World)
    requires Sound(w.family) && NextCreate(w, size, prependSize, w')
    ensures Sound(w'.family)
  {
    hide Whole, Hangs, Holds, Owns;
    var b := w'.handles[|w.handles|];
    assert forall c :: c in w.family ==> w.family[c].mem in Memory(w.family);
    CreatedSound(w.family, b, w'.family[b].mem, prependSize);
  }

  lemma ViewSound(w: World, b: Buffer, sz: nat, w': World)
    requires Sound(w.family) && b in w.family && NextView(w, b, sz, w')
    ensures Sound(w'.family)
  {
    hide Whole, Hangs, Owns;
    assert Holds(w.family, b);
    var f, view := w.family[b], w'.handles[|w.handles|];
    LentSound(w.family, b, view, if f.read + sz > f.write then f.write - f.read else sz);
  }

  lemma AppendSound(w: World, b: Buffer, data: seq<byte>, w': World)
    requires Sound(w.family) && b in w.family && NextAppend(w, b, data, w') && !Locked(w.family[b])
    requires w.family[b].write + |data| <= w.family[b].size || w.family[b].reserved <= w.family[b].read
    ensures Sound(w'.family)
  {
    hide Hangs, Holds, Owns;
    assert Whole(w.family[b], b);
    assert forall c :: c in w.family ==> w.family[c].mem in Memory(w.family);
    MovedSound(w.family, b, w'.family[b].mem, w'.family[b].read, w'.family[b].write);
  }

  lemma ShrinkSound(w: World, b: Buffer, reserve: nat, w': World)
    requires Sound(w.family) && b in w.family && NextShrink(w, b, reserve, w') && !Locked(w.family[b])
    requires w.family[b].read <= w.family[b].reserved + reserve
    ensures Sound(w'.family)
  {
    hide Whole, Hangs, Holds, Owns;
    assert forall c :: c in w.family ==> w.family[c].mem in Memory(w.family);
    MovedSound(w.family, b, w'.family[b].mem, w.family[b].read, w.family[b].write);
  }

  lemma IndexSound(m: Family, b: Buffer, read: nat, write: nat)
    requires Sound(m) && b in m && (read <= write <= m[b].write || read == write == m[b].reserved)
    ensures Sound(Indexed(m, b, read, write))
  {
    hide Hangs, Holds, Owns;
    assert Whole(m[b], b);
    IndexedSound(m, b, read, write);
  }

  lemma NextSound(w: World, call: Call, w': World)
    requires Good(w) && Allowed(w, call) && Next(w, call, w')
    ensures Good(w')
  {
    hide Sound, NextCreate, NextView, NextAppend, NextShrink, Indexed, Locked, Memory, SameBut, Released;
    match call {
      case Create(size, prependSize) => CreateSound(w, size, prependSize, w');
      case View(_, sz) => ViewSound(w, On(w, call), sz, w');
      case Append(_, data) => AppendSound(w, On(w, call), data, w');
      case Shrink(_, reserve) => ShrinkSound(w, On(w, call), reserve, w');
      case Retrieve(_, len) =>
        var f := w.family[On(w, call)];
        if f.read + len == f.write {
          IndexSound(w.family, On(w, call), f.reserved, f.reserved);
        } else {
          IndexSound(w.family, On(w, call), f.read + len, f.write);
        }
      case Prepend(_, data) =>
        var f := w.family[On(w, call)];
        Ordered(w.family, On(w, call));
        IndexSound(w.family, On(w, call), f.read - |data|, f.write);
      case Release(_) => ReleasedSound(w.family, On(w, call));
    }
  }

  lemma Ordered(m: Family, b: Buffer)
    requires Sound(m) && b in m
    ensures m[b].read <= m[b].write
  {
    assert Whole(m[b], b);
  }

  // ----- What becomes of a view -----

  ghost predicate Stays(v: Buffer, m: Family, n: Family)
    requires v in m
  {
    v in n && n[v].src == m[v].src && n[v].mem == m[v].mem && n[v].start == m[v].start && n[v].size == m[v].size
  }

  // A call writes a header over the p-th byte of some memory.
  predicate Overwrites(w: World, call: Call, a: array<byte>, p: nat) {
    call.Prepend? && Usable(w, call) &&
    var f := w.family[On(w, call)];
    a == f.mem && f.start + f.read - |call.data| <= p < f.start + f.read
  }

  predicate Releases(w: World, call: Call, v: Buffer) {
    call.Release? && Usable(w, call) && On(w, call) == v
  }

  // What that byte is after the call.
  function ByteAfter(w: World, call: Call, a: array<byte>, p: nat): byte
    requires a in w.image && p < |w.image[a]|
  {
    if Overwrites(w, call, a, p) then
      var f := w.family[On(w, call)];
      call.data[p - (f.start + f.read - |call.data|)]
    else w.image[a][p]
  }

  // The byte of a view, or of what it is a view of.
  ghost predicate Reads(w: World, v: Buffer, p: nat) {
    v in w.family && w.family[v].mem in w.image && p < |w.image[w.family[v].mem]|
  }

  lemma ViewStays(w: World, call: Call, w': World, v: Buffer)
    requires Good(w) && Allowed(w, call) && Next(w, call, w')
    requires v in w.family && w.family[v].src != null && !Releases(w, call, v)
    ensures Stays(v, w.family, w'.family)
  {
    hide Sound, Memory, SameBut, Good;
  }

  lemma BytesStay(w: World, call: Call, w': World, v: Buffer, p: nat)
    requires Good(w) && Allowed(w, call) && Next(w, call, w')
    requires v in w.family && w.family[v].src != null && !Releases(w, call, v) && Reads(w, v, p)
    ensures Stays(v, w.family, w'.family) && Reads(w', v, p)
    ensures w'.image[w'.family[v].mem][p] == ByteAfter(w, call, w.family[v].mem, p)
  {
    hide Sound;
    ViewStays(w, call, w', v);
    assert w'.family[v].mem in Memory(w'.family);
    if call.Append? {
      OthersApart(w.family, On(w, call));
    }
  }

  // ----- Runs -----

  ghost predicate IsRun(ws: seq<World>, calls: seq<Call>) {
    |ws| == |calls| + 1 &&
    forall i :: 0 <= i < |calls| ==> Allowed(ws[i], calls[i]) && Next(ws[i], calls[i], ws[i + 1])
  }

  lemma OneMore(ws: seq<World>, calls: seq<Call>, call: Call, w: World)
    requires IsRun(ws, calls) && Allowed(ws[|calls|], call) && Next(ws[|calls|], call, w)
    ensures IsRun(ws + [w], calls + [call])
  {
    hide Next, Allowed;
  }

  // After every run, in whatever order views are lent and released, the family
  // is sound: the reference count of a buffer is the number of its views, and
  // it is locked exactly while it is a view or has one.
  lemma RunSound(ws: seq<World>, calls: seq<Call>, i: nat, b: Buffer)
    requires IsRun(ws, calls) && Good(ws[0]) && i < |ws|
    ensures Good(ws[i])
    ensures b in ws[i].family ==>
      var m := ws[i].family;
      && m[b].refcount == |set v | v in m && m[v].src == b|
      && (Locked(m[b]) <==> m[b].src != null || exists v :: v in m && m[v].src == b)
  {
    hide Sound, Next, Allowed;
    GoodAt(ws, calls, i);
    if b in ws[i].family {
      CountsViews(ws[i].family, b);
    }
  }

  // A view that is never released lies on the same bytes throughout a run, and
  // a byte over which no header is written stays what it was.
  lemma {:induction false} ViewKeepsBytes(ws: seq<World>, calls: seq<Call>, v: Buffer, p: nat)
    requires IsRun(ws, calls) && Good(ws[0]) && v in ws[0].family && ws[0].family[v].src != null && Reads(ws[0], v, p)
    requires forall i :: 0 <= i < |calls| ==> !Releases(ws[i], calls[i], v)
    requires forall i :: 0 <= i < |calls| ==> !Overwrites(ws[i], calls[i], ws[0].family[v].mem, p)
    ensures var n := ws[|calls|];
      && Stays(v, ws[0].family, n.family) && Reads(n, v, p)
      && n.image[n.family[v].mem][p] == ws[0].image[ws[0].family[v].mem][p]
  {
    hide Sound, Next, Allowed, Good, Overwrites;
    if calls != [] {
      var n := |calls| - 1;
      var front := ws[..|calls|];
      assert front[n] == ws[n] && forall i :: 0 <= i < n ==> calls[..n][i] == calls[i];
      ViewKeepsBytes(front, calls[..n], v, p);
      RunSound(ws, calls, n, v);
      BytesStay(ws[n], calls[n], ws[n + 1], v, p);
    }
  }

  // The same holds from any point of a run on.
  lemma RestOfRun(ws: seq<World>, calls: seq<Call>, i: nat)
    requires IsRun(ws, calls) && Good(ws[0]) && i <= |calls|
    ensures IsRun(ws[i..], calls[i..]) && Good(ws[i..][0])
  {
    hide Sound, Next, Allowed;
    forall j | 0 <= j < |calls[i..]|
      ensures Allowed(ws[i..][j], calls[i..][j]) && Next(ws[i..][j], calls[i..][j], ws[i..][j + 1])
    {
      assert ws[i..][j] == ws[i + j] && ws[i..][j + 1] == ws[i + j + 1] && calls[i..][j] == calls[i + j];
    }
    GoodAt(ws, calls, i);
  }

  lemma {:induction false} GoodAt(ws: seq<World>, calls: seq<Call>, i: nat)
    requires IsRun(ws, calls) && Good(ws[0]) && i < |ws|
    ensures Good(ws[i])
  {
    hide Sound, Next, Allowed;
    if i > 0 {
      GoodAt(ws, calls, i - 1);
      NextSound(ws[i - 1], calls[i - 1], ws[i]);
    }
  }

  // And one over which headers are written is what the last of them says.
  lemma ViewShowsHeader(w: World, call: Call, w': World, v: Buffer, p: nat)
    requires Good(w) && Allowed(w, call) && Next(w, call, w') && call.Prepend?
    requires v in w.family && w.family[v].src != null && Reads(w, v, p) && Overwrites(w, call, w.family[v].mem, p)
    ensures Reads(w', v, p)
    ensures var f := w.family[On(w, call)];
      w'.image[w'.family[v].mem][p] == call.data[p - (f.start + f.read - |call.data|)]
  {
    hide Sound, Next, Allowed, Good;
    BytesStay(w, call, w', v, p);
  }

  // Appending is allowed exactly to a buffer that is no view and of which no
  // view is left, with room for the data or no prepended header unread.
  lemma AppendAllowed(ws: seq<World>, calls: seq<Call>, i: nat, h: nat, data: seq<byte>)
    requires IsRun(ws, calls) && Good(ws[0]) && i < |ws| && Usable(ws[i], Append(h, data))
    ensures var m, b := ws[i].family, ws[i].handles[h];
      Allowed(ws[i], Append(h, data)) <==>
        && m[b].src == null && (forall v :: v in m ==> m[v].src != b)
        && (m[b].write + |data| <= m[b].size || m[b].reserved <= m[b].read)
  {
    hide Next, Sound, Locked;
    RunSound(ws, calls, i, ws[i].handles[h]);
  }
}
