/**
 The options of a TCP header: the general loop over kind, length and value, and
 the fast path for the timestamp in its usual place.
 */
module TcpOptions {
  import opened Bytes

  const EOL := 0
  const NOP := 1
  const MSS := 2
  const WINDOW := 3
  const SACK_PERM := 4
  const TIMESTAMP := 8

  // What is stored of the options: the last value of each kind.
  datatype Stored = Stored(mss: nat, wscale: nat, tsval: nat, tsecr: nat, sackOk: bool)

  function FromBe16(p: seq<byte>): nat
    requires |p| == 2
  {
    (p[0] as int) * 256 + p[1]
  }

  // One option; one of a known kind but another length is passed over.
  function Store(kind: byte, data: seq<byte>, s: Stored): Stored {
    if kind == MSS && |data| == 2 then s.(mss := FromBe16(data))
    else if kind == WINDOW && |data| == 1 then s.(wscale := data[0])
    else if kind == TIMESTAMP && |data| == 8 then s.(tsval := FromBe32(data, 0), tsecr := FromBe32(data, 4))
    else if kind == SACK_PERM && |data| == 0 then s.(sackOk := true)
    else s
  }

  datatype Result = Result(ok: bool, stored: Stored)

  // The general loop. An option that does not fit ends it; a length byte
  // missing behind the last kind comes to the same.
  function Parse(options: seq<byte>, s: Stored): Result
    decreases |options|
  {
    if options == [] || options[0] == EOL then Result(true, s)
    else if options[0] == NOP then Parse(options[1..], s)
    else if |options| < 2 || options[1] < 2 || options[1] > |options| then Result(false, s)
    else Parse(options[options[1]..], Store(options[0], options[2..options[1]], s))
  }

  const ALIGNED: seq<byte> := [NOP, NOP, TIMESTAMP, 10]

  function ParseAligned(options: seq<byte>, s: Stored): Option<Stored>
    requires |options| == 12
  {
    if options[..4] == ALIGNED then Some(s.(tsval := FromBe32(options, 4), tsecr := FromBe32(options, 8))) else None
  }

  // ----- Options as lists -----

  datatype Opt =
    | Nop
    | Mss(mss: nat)
    | Window(wscale: byte)
    | SackPerm
    | Timestamp(val: nat, ecr: nat)
    | Other(kind: byte, data: seq<byte>)

  predicate Known(kind: byte, length: nat) {
    (kind == 2 && length == 2) || (kind == 3 && length == 1) || (kind == 4 && length == 0) || (kind == 8 && length == 8)
  }

  predicate WellFormed(o: Opt) {
    match o
    case Mss(v) => v < 0x1_0000
    case Timestamp(v, e) => v < 0x1_0000_0000 && e < 0x1_0000_0000
    case Other(kind, data) =>
      kind != 0 && kind != 1 && |data| + 2 < 256 && !Known(kind, |data|)
    case _ => true
  }

  function Be16(v: nat): (r: seq<byte>)
    requires v < 0x1_0000
    ensures |r| == 2 && v == (r[0] as int) * 256 + r[1]
  {
    [v / 256, v % 256]
  }

  function Kind(o: Opt): byte {
    match o
    case Nop => 1
    case Mss(_) => 2
    case Window(_) => 3
    case SackPerm => 4
    case Timestamp(_, _) => 8
    case Other(kind, _) => kind
  }

  function Data(o: Opt): (r: seq<byte>)
    requires WellFormed(o)
    ensures |r| + 2 < 256
  {
    match o
    case Nop => []
    case Mss(v) => Be16(v)
    case Window(v) => [v]
    case SackPerm => []
    case Timestamp(v, e) => Be32(v) + Be32(e)
    case Other(_, data) => data
  }

  // An option as section 3.1 of RFC 793 and section 3.2 of RFC 7323 lay it out.
  function Wire(o: Opt): seq<byte>
    requires WellFormed(o)
  {
    if o.Nop? then [1] else [Kind(o), |Data(o)| + 2] + Data(o)
  }

  function WireAll(os: seq<Opt>): seq<byte>
    requires forall i :: 0 <= i < |os| ==> WellFormed(os[i])
  {
    if os == [] then [] else Wire(os[0]) + WireAll(os[1..])
  }

  function One(o: Opt, s: Stored): Stored {
    match o
    case Mss(v) => s.(mss := v)
    case Window(v) => s.(wscale := v)
    case SackPerm => s.(sackOk := true)
    case Timestamp(v, e) => s.(tsval := v, tsecr := e)
    case _ => s
  }

  // What is stored in the end: of each kind the last value in the list.
  function Last(os: seq<Opt>, s: Stored): Stored {
    if os == [] then s else One(os[|os| - 1], Last(os[..|os| - 1], s))
  }

  predicate Same(a: Opt, b: Opt) {
    (a.Mss? && b.Mss?) || (a.Window? && b.Window?) || (a.SackPerm? && b.SackPerm?) || (a.Timestamp? && b.Timestamp?)
  }

  // An option is what is stored unless one of the same kind follows.
  lemma {:induction false} LastValue(os: seq<Opt>, s: Stored, i: nat)
    requires i < |os| && forall j :: i < j < |os| ==> !Same(os[i], os[j])
    ensures One(os[i], Last(os, s)) == Last(os, s)
  {
    if i < |os| - 1 {
      var front := os[..|os| - 1];
      LastValue(front, s, i);
      assert front[i] == os[i];
    }
  }

  lemma {:induction false} LastFromFront(os: seq<Opt>, s: Stored)
    requires os != []
    ensures Last(os, s) == Last(os[1..], One(os[0], s))
  {
    if |os| == 1 {
      assert os == [os[0]];
    } else {
      var front := os[..|os| - 1];
      LastFromFront(front, s);
      assert front[1..] == os[1..][..|os| - 2];
    }
  }

  lemma Be16Inverts(v: nat)
    requires v < 0x1_0000
    ensures FromBe16(Be16(v)) == v
  {
  }

  // An option of kind and data in front of other bytes is stored and passed.
  lemma ParseOption(kind: byte, data: seq<byte>, rest: seq<byte>, s: Stored)
    requires kind != EOL && kind != NOP && |data| + 2 < 256
    ensures Parse([kind, |data| + 2] + data + rest, s) == Parse(rest, Store(kind, data, s))
  {
    var n: int := |data| + 2;
    var options := [kind, |data| + 2] + data + rest;
    assert options[2..n] == data && options[n..] == rest;
  }

  // Reading a value back gives what was written.
  lemma StoreOne(o: Opt, s: Stored)
    requires WellFormed(o) && !o.Nop?
    ensures Store(Kind(o), Data(o), s) == One(o, s)
  {
    hide FromBe16, Be16, FromBe32, Be32;
    match o {
      case Mss(v) => Be16Inverts(v);
      case Timestamp(v, e) =>
        assert At(Data(o), 0, Be32(v)) && At(Data(o), 4, Be32(e));
        Be32Inverts(v, Data(o), 0);
        Be32Inverts(e, Data(o), 4);
      case _ =>
    }
  }

  lemma NothingStored(s: Stored)
    ensures One(Nop, s) == s
  {
  }

  lemma ParseOne(o: Opt, rest: seq<byte>, s: Stored)
    requires WellFormed(o)
    ensures Parse(Wire(o) + rest, s) == Parse(rest, One(o, s))
  {
    hide Data, Store, One;
    if o.Nop? {
      assert ([NOP] + rest)[1..] == rest;
      NothingStored(s);
    } else {
      StoreOne(o, s);
      ParseOption(Kind(o), Data(o), rest, s);
    }
  }

  // No option starts here: at the end of all or at an end mark.
  predicate Ended(rest: seq<byte>) {
    rest == [] || rest[0] == 0
  }

  // An option starts here that has no length, one below 2 or one too long.
  predicate Broken(rest: seq<byte>) {
    rest != [] && rest[0] > 1 && (|rest| == 1 || rest[1] < 2 || rest[1] > |rest|)
  }

  // For every list of options, ended by its length, an end mark or an option
  // that does not fit: all of them are read, the last of each kind is stored,
  // and the result is false for what does not fit.
  lemma {:induction false} ParseWire(os: seq<Opt>, rest: seq<byte>, s: Stored)
    requires forall i :: 0 <= i < |os| ==> WellFormed(os[i])
    requires Ended(rest) || Broken(rest)
    ensures Parse(WireAll(os) + rest, s) == Result(Ended(rest), Last(os, s))
    decreases |os|
  {
    if os == [] {
      assert [] + rest == rest;
    } else {
      Assoc(Wire(os[0]), WireAll(os[1..]), rest);
      ParseOne(os[0], WireAll(os[1..]) + rest, s);
      ParseWire(os[1..], rest, One(os[0], s));
      LastFromFront(os, s);
    }
  }

  // The option of a kind that carries the data.
  lemma OptionOf(kind: byte, data: seq<byte>) returns (o: Opt)
    requires kind > 1 && |data| + 2 < 256
    ensures WellFormed(o) && !o.Nop? && Wire(o) == [kind, |data| + 2] + data
  {
    if !Known(kind, |data|) {
      o := Other(kind, data);
    } else if kind == 2 {
      o := Mss(FromBe16(data));
      assert Be16(FromBe16(data)) == data;
    } else if kind == 3 {
      o := Window(data[0]);
      assert [data[0]] == data;
    } else if kind == 4 {
      o := SackPerm;
      assert [] == data;
    } else {
      o := Timestamp(FromBe32(data, 0), FromBe32(data, 4));
      Be32Of(data[..4]);
      Be32Of(data[4..]);
      assert data == data[..4] + data[4..];
    }
  }

  lemma FirstOption(o: seq<byte>) returns (first: Opt, n: nat)
    requires !Ended(o) && !Broken(o)
    ensures WellFormed(first) && 0 < n <= |o| && o[..n] == Wire(first)
  {
    first, n := Nop, 1;
    if o[0] != 1 {
      n := o[1];
      first := OptionOf(o[0], o[2..n]);
      assert o[..n] == [o[0], o[1]] + o[2..n];
    }
  }

  // Any bytes are such a list with such an end.
  lemma {:induction false} Options(o: seq<byte>) returns (os: seq<Opt>, rest: seq<byte>)
    ensures forall i :: 0 <= i < |os| ==> WellFormed(os[i])
    ensures o == WireAll(os) + rest && (Ended(rest) || Broken(rest))
    decreases |o|
  {
    hide Wire, WellFormed, Ended, Broken;
    if Ended(o) || Broken(o) {
      os, rest := [], o;
    } else {
      var first, n := FirstOption(o);
      var more;
      more, rest := Options(o[n..]);
      os := [first] + more;
      assert os[1..] == more;
      assert o == o[..n] + o[n..];
      Assoc(Wire(first), WireAll(more), rest);
    }
  }

  // The fast path, where it succeeds, gives what the general loop gives.
  lemma FastPath(options: seq<byte>, s: Stored)
    requires |options| == 12 && ParseAligned(options, s).Some?
    ensures Parse(options, s) == Result(true, ParseAligned(options, s).value)
  {
    var data := options[4..];
    assert options == ALIGNED + data;
    assert options[1..][1..] == [TIMESTAMP, 10] + data + [];
    ParseOption(TIMESTAMP, data, [], s);
  }

  // ----- The parser -----

  class TcpOpt {
    var stored: Stored

    constructor ()
      ensures stored == Stored(0, 0, 0, 0, false)
    {
      stored := Stored(0, 0, 0, 0, false);
    }

    method ParseLoop(options: seq<byte>) returns (ok: bool)
      modifies this
      ensures Result(ok, stored) == Parse(options, old(stored))
    {
      hide Store;
      var ptr, length := 0, |options|;
      assert options[0..] == options;
      while length > 0
        invariant 0 <= ptr <= |options| && length == |options| - ptr
        invariant Parse(options[ptr..], stored) == Parse(options, old(stored))
      {
        ghost var rest := options[ptr..];
        var opcode := options[ptr];
        if opcode == EOL {
          return true;
        } else if opcode == NOP {
          assert rest[1..] == options[ptr + 1..];
          ptr, length := ptr + 1, length - 1;
        } else {
          if length < 2 {
            return false;
          }
          var opsize := options[ptr + 1];
          if opsize < 2 || opsize > length {
            return false;
          }
          assert rest[2..opsize] == options[ptr + 2..ptr + opsize] && rest[opsize..] == options[ptr + opsize..];
          stored := Store(opcode, options[ptr + 2..ptr + opsize], stored);
          ptr, length := ptr + opsize, length - opsize;
        }
      }
      return true;
    }

    // th_off counts words; `options` is what it leaves behind the 20 bytes of
    // the fixed header.
    method ParseHeader(off: nat, options: seq<byte>) returns (ok: bool)
      requires |options| == if off > 5 then (off - 5) * 4 else 0
      modifies this
      ensures off == 5 ==> !ok && stored == old(stored)
      ensures off != 5 ==> Result(ok, stored) == Parse(options, old(stored))
    {
      if off == 5 {
        return false;
      }
      if off == 8 && options[..4] == ALIGNED {
        FastPath(options, stored);
        stored := stored.(tsval := FromBe32(options, 4), tsecr := FromBe32(options, 8));
        return true;
      }
      ok := ParseLoop(options);
    }
  }
}
