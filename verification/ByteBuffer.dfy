/**
 The network buffer: room for headers in front, unread bytes, room behind, and
 read-only views that share its memory. A failed assertion, which ends the
 program, and a copy that would not fit are reported as an outcome.
 */
module ByteBuffer {
  import opened Bytes

  function Zeros(n: nat): (r: seq<byte>)
    ensures |r| == n && forall i :: 0 <= i < n ==> r[i] == 0
  {
    seq(n, i => 0)
  }

  // The bytes from i to j.
  function Window(m: seq<byte>, i: nat, j: nat): (w: seq<byte>)
    requires i <= j <= |m|
    ensures |w| == j - i
  {
    m[i..j]
  }

  lemma Take(m: seq<byte>, i: nat, j: nat, n: nat)
    requires i <= j <= |m| && n <= j - i
    ensures Window(m, i, j)[..n] == Window(m, i, i + n)
  {
  }

  lemma Drop(m: seq<byte>, i: nat, j: nat, n: nat)
    requires i <= j <= |m| && n <= j - i
    ensures Window(m, i, j)[n..] == Window(m, i + n, j)
  {
  }

  lemma Together(m: seq<byte>, i: nat, k: nat, j: nat)
    requires i <= k <= j <= |m|
    ensures Window(m, i, j) == Window(m, i, k) + Window(m, k, j)
  {
  }

  // Memory with other bytes from i on.
  function Overlaid(m: seq<byte>, i: nat, data: seq<byte>): (w: seq<byte>)
    requires i + |data| <= |m|
    ensures |w| == |m| && Window(w, i, i + |data|) == data
    ensures forall p :: 0 <= p < |m| ==> w[p] == if i <= p < i + |data| then data[p - i] else m[p]
  {
    m[..i] + data + m[i + |data|..]
  }

  predicate Overlays(w: seq<byte>, m: seq<byte>, i: nat, data: seq<byte>) {
    i + |data| <= |m| && w == Overlaid(m, i, data)
  }

  // They leave what is in front and what is behind.
  lemma Beside(m: seq<byte>, i: nat, data: seq<byte>, k: nat, j: nat)
    requires i + |data| <= |m| && (k <= j <= i || i + |data| <= k <= j <= |m|)
    ensures Window(Overlaid(m, i, data), k, j) == Window(m, k, j)
  {
  }

  class Buffer {
    var mem: array<byte>
    var start: nat          // where its memory begins, for a view not at 0
    var size: nat
    var read: nat
    var write: nat
    var reserved: nat       // for headers in front
    var refcount: nat
    var src: Buffer?        // what a view is a view of
    var cache: Buffer?      // a released view that can be used again
    ghost var views: set<Buffer>

    // The reference count is the number of outstanding views.
    ghost predicate Valid()
      reads this, views
    {
      && read <= write <= size && reserved <= size && start + size <= mem.Length
      && (src == null ==> start == 0 && size == mem.Length)
      && refcount == |views| && this !in views && (forall v :: v in views ==> v.src == this)
      && cache != this && cache !in views
    }

    ghost function Contents(): seq<byte>
      requires read <= write && start + write <= mem.Length
      reads this`mem, this`start, this`read, this`write, mem
    {
      Window(mem[..], start + read, start + write)
    }

    // A buffer is locked exactly while it is a view or has one.
    predicate WriteLocked(): (locked: bool)
      requires Valid()
      reads this, views
      ensures locked <==> src != null || views != {}
    {
      src != null || refcount > 0
    }

    constructor (size: nat, prependSize: nat)
      requires size > 0
      ensures Valid() && fresh(mem) && Contents() == [] && read == reserved == prependSize
      ensures this.size == size + prependSize && src == null && views == {} && cache == null
      ensures mem[..] == Zeros(size + prependSize)
    {
      mem := new byte[size + prependSize](_ => 0);
      start, this.size := 0, size + prependSize;
      read, write, reserved := prependSize, prependSize, prependSize;
      refcount, src, cache, views := 0, null, null, {};
    }

    function Writable(): nat
      requires write <= size
      reads this
    {
      size - write
    }

    // Moves the unread bytes behind the reserved room of new memory.
    method Swap(n: nat)
      requires Valid() && src == null && reserved + (write - read) <= n
      modifies this`mem, this`size
      ensures fresh(mem) && mem.Length == size == n
      ensures mem[..] == Zeros(reserved) + old(Contents()) + Zeros(n - reserved - (write - read))
      ensures Window(mem[..], reserved, reserved + (write - read)) == old(Contents())
    {
      var m := new byte[n](_ => 0);
      forall i | 0 <= i < write - read {
        m[reserved + i] := mem[start + read + i];
      }
      mem, size := m, n;
    }

    // Making room goes wrong exactly when a header was prepended and not read
    // yet: the bytes then start before the reserved room.
    method MakeSpace(len: nat) returns (ok: bool)
      requires Valid() && src == null && len > Writable()
      modifies this`mem, this`size, this`read, this`write, mem
      ensures ok <==> reserved <= old(read)
      ensures ok ==> Valid() && len <= Writable() && Contents() == old(Contents()) && read == reserved
      ensures ok ==> size == if reserved + len <= old(read + Writable()) then old(size) else old(write) + len
      ensures ok ==> write == read + old(write - read) && if size == old(size) then mem == old(mem) else fresh(mem)
      ensures mem == old(mem) || fresh(mem)
    {
      hide Window;
      var readable := write - read;
      var free := read + (size - write) - reserved;
      // The subtraction is unsigned: below zero it is a huge number.
      if 0 <= free < len {
        if write + len < reserved + readable {
          return false;
        }
        Swap(write + len);
      } else {
        if reserved >= read {
          return false;
        }
        Compact();
      }
      read := reserved;
      write := reserved + readable;
      ok := len <= size - write;
    }

    method EnsureWritable(len: nat) returns (ok: bool)
      requires Valid()
      modifies this`mem, this`size, this`read, this`write, mem
      ensures ok <==> !old(WriteLocked()) && (len <= old(Writable()) || reserved <= old(read))
      ensures ok ==> Valid() && len <= Writable() && Contents() == old(Contents())
      ensures mem == old(mem) || fresh(mem)
      ensures old(WriteLocked() || len <= Writable()) ==> unchanged(this) && unchanged(mem)
      ensures ok ==> read == if len <= old(Writable()) then old(read) else reserved
      ensures ok ==> size == if reserved + len <= old(read + Writable()) || len <= old(Writable())
                             then old(size) else old(write) + len
      ensures ok ==> write == read + old(write - read) && if size == old(size) then mem == old(mem) else fresh(mem)
    {
      hide Window;
      if WriteLocked() {
        return false;
      }
      if Writable() < len {
        ok := MakeSpace(len);
      } else {
        ok := true;
      }
    }

    method Compact()
      requires Valid() && src == null && reserved < read
      modifies mem
      ensures Window(mem[..], reserved, reserved + (write - read)) == old(Contents())
    {
      forall i | 0 <= i < write - read {
        mem[reserved + i] := mem[start + read + i];
      }
    }

    // A locked buffer stays as it is, and so do all views of it. Making room
    // moves the contents to the end of the reserved room, and more memory is
    // taken only where moving does not do.
    method Append(data: seq<byte>) returns (ok: bool)
      requires Valid()
      modifies this`mem, this`size, this`read, this`write, mem
      ensures ok <==> !old(WriteLocked()) && (|data| <= old(Writable()) || reserved <= old(read))
      ensures ok ==> Valid() && Contents() == old(Contents()) + data
      ensures ok ==> read == if |data| <= old(Writable()) then old(read) else reserved
      ensures ok ==> size == if reserved + |data| <= old(read + Writable()) || |data| <= old(Writable())
                             then old(size) else old(write) + |data|
      ensures ok ==> write == read + old(write - read) + |data|
      ensures ok ==> if size == old(size) then mem == old(mem) else fresh(mem)
      ensures mem == old(mem) || fresh(mem)
      ensures old(WriteLocked()) ==> unchanged(this) && unchanged(mem)
    {
      ok := EnsureWritable(|data|);
      if ok {
        WriteBehind(data);
      }
    }

    method WriteBehind(data: seq<byte>)
      requires Valid() && src == null && |data| <= Writable()
      modifies this`write, mem
      ensures Valid() && Contents() == old(Contents()) + data && write == old(write) + |data|
    {
      hide Window;
      ghost var m := mem[..];
      Store(write, data);
      Beside(m, write, data, read, write);
      Together(mem[..], read, write, write + |data|);
      write := write + |data|;
    }

    method Store(at: nat, data: seq<byte>)
      requires at + |data| <= mem.Length
      modifies mem
      ensures mem[..] == Overlaid(old(mem[..]), at, data)
    {
      forall i | 0 <= i < |data| {
        mem[at + i] := data[i];
      }
    }

    // Prepending does not ask for the lock.
    method Prepend(data: seq<byte>) returns (ok: bool)
      requires Valid()
      modifies this`read, mem
      ensures ok <==> |data| <= old(read)
      ensures Valid() && Contents() == if ok then data + old(Contents()) else old(Contents())
      ensures read == old(read) - if ok then |data| else 0
      ensures if ok then Overlays(mem[..], old(mem[..]), start + read, data) else mem[..] == old(mem[..])
    {
      hide Window;
      ok := |data| <= read;
      if ok {
        WriteInFront(data);
      }
    }

    method WriteInFront(data: seq<byte>)
      requires Valid() && |data| <= read
      modifies this`read, mem
      ensures Valid() && read == old(read) - |data| && Contents() == data + old(Contents())
      ensures Overlays(mem[..], old(mem[..]), start + read, data)
    {
      hide Window;
      ghost var m, at := mem[..], start + read - |data|;
      Store(start + read - |data|, data);
      Beside(m, at, data, start + read, start + write);
      Together(mem[..], at, start + read, start + write);
      read := read - |data|;
    }

    // Reading everything also gives back the reserved room.
    method Retrieve(len: nat) returns (ok: bool)
      requires Valid()
      modifies this`read, this`write
      ensures Valid() && (ok <==> len <= |old(Contents())|)
      ensures Contents() == if ok then old(Contents())[len..] else old(Contents())
      ensures ok ==> read == if len < |old(Contents())| then old(read) + len else reserved
      ensures ok ==> write == if len < |old(Contents())| then old(write) else reserved
    {
      hide Window;
      if len > write - read {
        return false;
      }
      Drop(mem[..], start + read, start + write, len);
      if len < write - read {
        read := read + len;
      } else {
        read, write := reserved, reserved;
      }
      return true;
    }

    // Shrinking moves the bytes but not the indices: arbitrary contents are
    // kept only from the end of the reserved room.
    method Shrink(reserve: nat) returns (ok: bool)
      requires Valid()
      modifies this`mem, this`size
      ensures ok <==> !old(WriteLocked())
      ensures if ok then fresh(mem) && size == reserved + (write - read) + reserve else unchanged(this)
      ensures ok ==> mem[..] == Zeros(reserved) + old(Contents()) + Zeros(reserve)
      ensures ok ==> (Valid() <==> read <= reserved + reserve)
      ensures ok && Valid() ==>
        (Contents() == old(Contents()) <==> read == reserved || old(Contents()) == Zeros(write - read))
    {
      hide Window;
      ok := !WriteLocked();
      if ok {
        ghost var s := Contents();
        Swap(reserved + (write - read) + reserve);
        if read <= reserved + reserve {
          ShiftedWindow(s, reserved, read, reserve);
        }
      }
    }

    // The zeroed struct that a view starts from.
    constructor Blank()
      ensures fresh(mem)
    {
      mem := new byte[0];
      start, size, read, write, reserved, refcount, src, cache, views := 0, 0, 0, 0, 0, 0, null, null, {};
    }

    // A new view: all of it is to be read, and it is where the parent's unread
    // bytes are.
    predicate Lies(parent: Buffer, n: nat)
      reads this, parent
    {
      && mem == parent.mem && start == parent.start + parent.read
      && size == write == n && read == reserved == refcount == 0
    }

    // A view of the first bytes, in the same memory. A released view is used
    // again.
    method ReadonlyView(sz: int) returns (view: Buffer?)
      requires Valid()
      modifies this`refcount, this`cache, this`views, if cache == null then {} else {cache}
      ensures Valid() && Contents() == old(Contents()) && (view == null <==> sz <= 0)
      ensures views == old(views) + if view == null then {} else {view}
      ensures refcount == old(refcount) + if view == null then 0 else 1
      ensures view != null ==> view !in old(views) && if old(cache) == null then fresh(view) else view == old(cache)
      ensures view != null ==> view.Valid() && view.src == this && view.views == {}
      ensures view != null ==> view.Lies(this, if sz > write - read then write - read else sz)
      ensures view != null ==> view.Contents() == Contents()[..if sz > write - read then write - read else sz]
      ensures cache == (if view == null then old(cache) else null) && (view != null ==> view.cache == null)
    {
      hide Window;
      if sz <= 0 {
        return null;
      }
      view := ViewOf(if sz > write - read then write - read else sz);
    }

    method ViewOf(n: nat) returns (view: Buffer)
      requires Valid() && n <= write - read
      modifies this`refcount, this`cache, this`views, if cache == null then {} else {cache}
      ensures Valid() && mem == old(mem) && views == old(views) + {view} && refcount == old(refcount) + 1
      ensures view !in old(views) && if old(cache) == null then fresh(view) else view == old(cache)
      ensures view.Valid() && view.src == this && view.views == {} && view.Contents() == Contents()[..n]
      ensures view.Lies(this, n) && cache == null && view.cache == null
    {
      hide Window;
      view := Struct();
      view.Become(this, n);
      Lend(view);
    }

    method Struct() returns (rbuf: Buffer)
      requires Valid()
      modifies this`cache
      ensures Valid() && rbuf != this && rbuf !in views && cache == null
      ensures if old(cache) == null then fresh(rbuf) else rbuf == old(cache)
    {
      if cache != null {
        rbuf := cache;
        cache := null;
      } else {
        rbuf := new Buffer.Blank();
      }
    }

    method Lend(view: Buffer)
      requires Valid() && view != this && view !in views && view != cache && view.src == this
      modifies this`refcount, this`views
      ensures Valid() && views == old(views) + {view} && refcount == old(refcount) + 1
    {
      refcount := refcount + 1;
      views := views + {view};
    }

    method Become(parent: Buffer, n: nat)
      requires this != parent && parent.read <= parent.write && parent.start + parent.write <= parent.mem.Length
      requires n <= parent.write - parent.read
      modifies this
      ensures Valid() && src == parent && views == {} && Contents() == parent.Contents()[..n]
      ensures Lies(parent, n) && cache == null
    {
      hide Window;
      Take(parent.mem[..], parent.start + parent.read, parent.start + parent.write, n);
      mem, start, size := parent.mem, parent.start + parent.read, n;
      read, write, reserved := 0, n, 0;
      refcount, src, cache, views := 0, parent, null, {};
    }

    function Parent(): set<Buffer>
      reads this
    {
      if src == null then {} else {src}
    }

    // Nothing that has a view is released; the parent of a released view has
    // one view less and keeps the struct for the next.
    method Release() returns (ok: bool)
      requires Valid() && (src != null ==> src.Valid() && this in src.views)
      modifies Parent()`refcount, Parent()`views, Parent()`cache
      ensures ok <==> views == {}
      ensures src != null ==> src.Valid() && src.views == old(src.views) - if ok then {this} else {}
      ensures src != null && !ok ==> src.cache == old(src.cache) && src.refcount == old(src.refcount)
      ensures src != null && ok ==> src.cache == if old(src.cache) == null then this else old(src.cache)
    {
      if refcount != 0 {
        return false;
      }
      if src != null {
        src.refcount := src.refcount - 1;
        src.views := src.views - {this};
        if src.cache == null {
          src.cache := this;
        }
      }
      return true;
    }
  }

  // Reading from the k-th byte on what begins at the r-th, with zeros around:
  // only at its place, or of zeros alone, is it the same.
  lemma ShiftedWindow(s: seq<byte>, r: nat, k: nat, e: nat)
    requires k <= r + e
    ensures Window(Zeros(r) + s + Zeros(e), k, k + |s|) == s <==> k == r || s == Zeros(|s|)
  {
    var all := Zeros(r) + s + Zeros(e);
    var w := all[k..k + |s|];
    assert forall i :: 0 <= i < |s| ==> w[i] == all[k + i];
    if k == r || s == Zeros(|s|) {
      assert w == s;
    }
    if w == s && k != r {
      forall i | 0 <= i < |s|
        ensures s[i] == 0
      {
        ZeroAt(s, r, k, e, i);
      }
    }
  }

  // Each byte of such a window is a byte of it further on, or zero.
  lemma {:induction false} ZeroAt(s: seq<byte>, r: nat, k: nat, e: nat, i: nat)
    requires k != r && k <= r + e && i < |s| && (Zeros(r) + s + Zeros(e))[k..k + |s|] == s
    ensures s[i] == 0
    decreases if k > r then |s| - i else i
  {
    var all := Zeros(r) + s + Zeros(e);
    assert s[i] == all[k..k + |s|][i] == all[k + i];
    if r <= k + i < r + |s| {
      ZeroAt(s, r, k, e, k + i - r);
    }
  }
}
