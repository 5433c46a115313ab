/**
 Hessian 2.0 integers and strings (sections 4.5 and 4.12 of the Hessian 2.0
 serialization protocol): which values survive being encoded and decoded.
 */
module Hessian {
  import opened Bytes
  import Utf8

  type int32 = v: int | -0x8000_0000 <= v < 0x8000_0000

  // ----- Integers -----

  // Storing in a uint8_t keeps the low byte; >> on a negative number rounds down.
  function LowByte(v: int): byte {
    v % 256
  }

  function Signed(u: int): int32
    requires 0 <= u < 0x1_0000_0000
  {
    if u < 0x8000_0000 then u else u - 0x1_0000_0000
  }

  // The sum overflows a C int above 2147483447; it is taken to wrap around, and
  // whatever comes of it the second condition then fails.
  function EncodeInt(v: int32): (r: seq<byte>)
    ensures |r| in {1, 2, 3, 5}
  {
    if -0x10 <= v <= 0x2f then [v + 0x90]
    else if -0x800 <= Signed((v + 0xc8) % 0x1_0000_0000) && v <= 0x7ff then [LowByte(v / 256 + 0xc8), LowByte(v)]
    else if -0x40000 <= v <= 0x3ffff then [LowByte(v / 65536 + 0xd4), LowByte(v / 256), LowByte(v)]
    else [73, LowByte(v / 0x1000000), LowByte(v / 65536), LowByte(v / 256), LowByte(v)]
  }

  function DecodeInt(buf: seq<byte>): Option<int32>
    requires buf != []
  {
    var code: int := buf[0];
    if 0x80 <= code <= 0xbf then Some(code - 0x90)
    else if |buf| >= 2 && 0xc0 <= code <= 0xcf then Some(Join(code - 0xc8, buf[1]))
    else if |buf| >= 3 && 0xd0 <= code <= 0xd7 then Some(Join(Join(code - 0xd4, buf[1]), buf[2]))
    else if |buf| >= 5 && code == 73 then Some(Signed(Join(Join(Join(buf[1], buf[2]), buf[3]), buf[4])))
    else None
  }

  function Join(high: int, low: byte): int {
    high * 256 + low
  }

  lemma Rejoin(v: int)
    ensures Join(v / 256, LowByte(v)) == v
  {
  }

  lemma Rejoin3(v: int)
    ensures Join(Join(v / 65536, LowByte(v / 256)), LowByte(v)) == v
  {
    assert v / 65536 == v / 256 / 256;
  }

  // The four-byte form carries the two's complement of the number.
  lemma Rejoin4(v: int32)
    ensures Signed(Join(Join(Join(LowByte(v / 0x1000000), LowByte(v / 65536)), LowByte(v / 256)), LowByte(v))) == v
  {
    hide LowByte;
    TopByte(v);
    DivideTwice(v);
    Rejoin3(v / 256);
    Rejoin(v);
  }

  lemma TopByte(v: int32)
    ensures LowByte(v / 0x1000000) == if v < 0 then v / 0x1000000 + 256 else v / 0x1000000
  {
    assert -128 <= v / 0x1000000 < 128;
  }

  lemma DivideTwice(v: int)
    ensures v / 256 / 65536 == v / 0x1000000 && v / 256 / 256 == v / 65536
  {
  }

  lemma DecodeFirst(buf: seq<byte>, rest: seq<byte>)
    requires buf != []
    ensures DecodeInt(buf).Some? ==> DecodeInt(buf + rest) == DecodeInt(buf)
  {
    assert forall i :: 0 <= i < |buf| ==> (buf + rest)[i] == buf[i];
  }

  // The two-byte form is chosen for 200 values too many, and each of them is
  // read back as 47 from the first of its bytes. All others survive, whatever
  // follows them.
  lemma IntRoundTrip(v: int32, rest: seq<byte>)
    ensures DecodeInt(EncodeInt(v) + rest) == Some(v) <==> !(-2248 <= v <= -2049)
    ensures -2248 <= v <= -2049 ==> DecodeInt(EncodeInt(v) + rest) == Some(47)
  {
    hide LowByte, Join, Signed;
    DecodeFirst(EncodeInt(v), rest);
    SumWraps(v);
    if -0x10 <= v <= 0x2f {
    } else if -2248 <= v <= 0x7ff {
      LowByteOf(v / 256 + 0xc8);
      Rejoin(v);
    } else if -0x40000 <= v <= 0x3ffff {
      LowByteOf(v / 65536 + 0xd4);
      Rejoin3(v);
    } else {
      Rejoin4(v);
    }
  }

  // The bytes of each form, and the numbers that have it.
  lemma IntLayout(v: int32)
    ensures var r := EncodeInt(v);
      if -16 <= v <= 47 then |r| == 1 && r[0] as int - 0x90 == v
      else if -2248 <= v <= 2047 then |r| == 2 && (v >= -2048 ==> (r[0] as int - 0xc8) * 256 + r[1] == v)
      else if -262144 <= v <= 262143 then |r| == 3 && ((r[0] as int - 0xd4) * 256 + r[1]) * 256 + r[2] == v
      else |r| == 5 && r[0] == 73
  {
    hide LowByte, Signed;
    SumWraps(v);
    if -0x10 <= v <= 0x2f {
    } else if -2248 <= v <= 0x7ff {
      Rejoin(v);
      if v >= -2048 {
        LowByteOf(v / 256 + 0xc8);
      }
    } else if -0x40000 <= v <= 0x3ffff {
      Rejoin3(v);
      LowByteOf(v / 65536 + 0xd4);
    }
  }

  // The sum of the second condition, which wraps only where that does not matter.
  lemma SumWraps(v: int32)
    ensures v <= 0x7ff ==> Signed((v + 0xc8) % 0x1_0000_0000) == v + 0xc8
  {
    if v + 0xc8 < 0 {
      assert (v + 0xc8) % 0x1_0000_0000 == v + 0xc8 + 0x1_0000_0000;
    }
  }

  lemma LowByteOf(b: byte)
    ensures LowByte(b) == b
  {
  }

  // ----- Strings -----

  // How far utf8cpy moves over the character that starts with c; 0 for bytes
  // that start none.
  function CharWidth(c: byte): (w: nat)
    ensures w <= 4
  {
    if c <= 0x80 then 1
    else if 0xC0 <= c < 0xE0 then 2
    else if 0xE0 <= c < 0xF0 then 3
    else if 0xF0 <= c < 0xF8 then 4
    else 0
  }

  // The bytes that n characters of src take; None when a byte starts no
  // character or the characters do not end within src.
  function Extent(src: seq<byte>, i: nat, n: nat): (r: Option<nat>)
    requires i <= |src|
    ensures r.Some? ==> i + n <= r.value <= |src|
    decreases n
  {
    if n == 0 then Some(i)
    else if i == |src| || CharWidth(src[i]) == 0 || i + CharWidth(src[i]) > |src| then None
    else Extent(src, i + CharWidth(src[i]), n - 1)
  }

  function StringHeader(n: nat): (r: seq<byte>)
    requires n <= 0x8000
    ensures 1 <= |r| <= 3
  {
    if n <= 31 then [n]
    else if n <= 1023 then [48 + n / 256, LowByte(n)]
    else [83, n / 256, LowByte(n)]
  }

  function EncodeString(s: seq<byte>): Option<seq<byte>> {
    if |s| > 0x8000 then None else Some(StringHeader(|s|) + s)
  }

  // A chunk that is not the last sends the decoder back to the same chunk.
  datatype Decoded = Text(s: seq<byte>) | Failure | Endless

  function Chunk(buf: seq<byte>, header: nat, n: nat): Decoded {
    if |buf| < header + n then Failure
    else
      var content := buf[header..];
      match Extent(content, 0, n)
      case Some(e) => Text(content[..e])
      case None => Failure
  }

  function DecodeString(buf: seq<byte>): Decoded
    requires buf != []
  {
    var code: int := buf[0];
    if code <= 0x1f then Chunk(buf, 1, code)
    else if 0x30 <= code <= 0x33 then
      if |buf| < 2 then Failure else Chunk(buf, 2, Join(code - 0x30, buf[1]))
    else if code == 0x53 || code == 0x52 then
      if |buf| < 3 then Failure
      else
        var r := Chunk(buf, 3, Join(buf[1], buf[2]));
        if code == 0x52 && r.Text? then Endless else r
    else Failure
  }

  // The length stands in one byte, in two or, behind the letter S, in three.
  lemma HeaderLayout(n: nat)
    requires n <= 0x8000
    ensures var r := StringHeader(n);
      if n <= 31 then r == [n]
      else if n <= 1023 then |r| == 2 && r[0] >= 48 && (r[0] as int - 48) * 256 + r[1] == n
      else |r| == 3 && r[0] == 83 && r[1] as int * 256 + r[2] == n
  {
  }

  predicate Narrow(s: seq<byte>) {
    forall i :: 0 <= i < |s| ==> s[i] <= 0x80
  }

  // Counting characters reaches the end of the string exactly when all of them
  // are one byte wide; what follows the string does not matter.
  lemma {:induction false} ExtentOfString(s: seq<byte>, rest: seq<byte>, i: nat)
    requires i <= |s|
    ensures Extent(s + rest, i, |s| - i) == Some(|s|) <==> Narrow(s[i..])
    decreases |s| - i
  {
    var c := s + rest;
    if i < |s| {
      assert s[i..] == [s[i]] + s[i + 1..];
      if s[i] <= 0x80 {
        ExtentOfString(s, rest, i + 1);
        assert Narrow(s[i..]) <==> Narrow(s[i + 1..]);
      } else {
        assert s[i..][0] > 0x80;
      }
    }
  }

  // The length written is a number of bytes, the length read one of characters.
  lemma StringRoundTrip(s: seq<byte>, rest: seq<byte>)
    requires |s| <= 0x8000
    ensures DecodeString(EncodeString(s).value + rest) == Text(s) <==> Narrow(s)
    ensures DecodeString(EncodeString(s).value + rest) != Endless
  {
    hide StringHeader, DecodeString, Extent;
    HeaderRead(|s|, s + rest);
    Assoc(StringHeader(|s|), s, rest);
    ExtentOfString(s, rest, 0);
    assert s[0..] == s;
    match Extent(s + rest, 0, |s|) {
      case Some(e) => assert |(s + rest)[..e]| == e;
                      assert (s + rest)[..|s|] == s;
      case None =>
    }
  }

  // How many one bits a byte begins with.
  function LeadingOnes(b: byte, n: nat): (k: nat)
    requires n <= 8
    ensures k <= n
    decreases n
  {
    if n == 0 || b < 0x80 then 0 else 1 + LeadingOnes(2 * (b - 0x80), n - 1)
  }

  // They are the width of a character, from two to four, but a byte up to 0x80
  // is one character and no other byte starts any.
  lemma WidthIsLeadingOnes(c: byte)
    ensures var k := LeadingOnes(c, 8);
      CharWidth(c) == if c <= 0x80 then 1 else if 2 <= k <= 4 then k else 0
  {
  }

  // The number of characters of well-formed text (section 4 of RFC 3629).
  function Characters(s: seq<byte>, i: nat): (n: nat)
    requires i <= |s| && Utf8.WellFormed(s, i)
    ensures n <= |s| - i
    decreases |s| - i
  {
    if i == |s| then 0 else 1 + Characters(s, i + Utf8.CharLength(s, i))
  }

  lemma {:induction false} ExtentOfText(s: seq<byte>, rest: seq<byte>, i: nat)
    requires i <= |s| && Utf8.WellFormed(s, i)
    ensures Extent(s + rest, i, Characters(s, i)) == Some(|s|)
    decreases |s| - i
  {
    if i < |s| {
      assert CharWidth((s + rest)[i]) == Utf8.CharLength(s, i);
      ExtentOfText(s, rest, i + Utf8.CharLength(s, i));
    }
  }

  // Had the length been written in characters, the decoder would read every
  // well-formed text back.
  lemma CharactersRoundTrip(s: seq<byte>, rest: seq<byte>)
    requires Utf8.WellFormed(s, 0) && Characters(s, 0) <= 0x8000
    ensures DecodeString(StringHeader(Characters(s, 0)) + s + rest) == Text(s)
  {
    hide StringHeader, DecodeString, Extent;
    var n := Characters(s, 0);
    HeaderRead(n, s + rest);
    Assoc(StringHeader(n), s, rest);
    ExtentOfText(s, rest, 0);
    ExtentIsEnough(s + rest, n);
    assert (s + rest)[..|s|] == s;
  }

  lemma ExtentIsEnough(content: seq<byte>, n: nat)
    requires Extent(content, 0, n).Some?
    ensures n <= |content|
  {
  }

  // The decoder finds the length behind any header, and the content behind it.
  lemma HeaderRead(n: nat, content: seq<byte>)
    requires n <= 0x8000
    ensures DecodeString(StringHeader(n) + content) == Chunk(StringHeader(n) + content, |StringHeader(n)|, n)
    ensures (StringHeader(n) + content)[|StringHeader(n)|..] == content
  {
    var h := StringHeader(n);
    var buf := h + content;
    assert forall i :: 0 <= i < |h| ==> buf[i] == h[i];
    Rejoin(n);
  }

  method CopyBytes(dst: array<byte>, at: nat, src: seq<byte>)
    requires at + |src| <= dst.Length
    modifies dst
    ensures dst[..] == old(dst[..at]) + src + old(dst[at + |src|..])
  {
    forall k | 0 <= k < |src| {
      dst[at + k] := src[k];
    }
  }

  method Utf8Copy(dst: array<byte>, at: nat, src: seq<byte>, n: nat) returns (copied: Option<nat>)
    requires at + |src| <= dst.Length
    modifies dst
    ensures copied == Extent(src, 0, n)
    ensures dst[..] == if copied.None? then old(dst[..])
      else old(dst[..at]) + src[..copied.value] + old(dst[at + copied.value..])
  {
    var i: nat, left: nat := 0, n;
    while left > 0
      invariant i <= |src| && left <= n && Extent(src, 0, n) == Extent(src, i, left)
    {
      if i == |src| || CharWidth(src[i]) == 0 || i + CharWidth(src[i]) > |src| {
        return None;
      }
      i, left := i + CharWidth(src[i]), left - 1;
    }
    CopyBytes(dst, at, src[..i]);
    copied := Some(i);
  }

  method WriteString(s: seq<byte>, out: array<byte>) returns (n: Option<nat>)
    requires |s| <= 0x8000 ==> out.Length >= |s| + 3
    modifies out
    ensures n.None? <==> EncodeString(s).None?
    ensures n.Some? ==> n.value <= out.Length && out[..n.value] == EncodeString(s).value
  {
    var length := |s|;
    if length > 0x8000 {
      return None;
    }
    var index;
    if length <= 31 {
      out[0] := LowByte(length);
      index := 1;
    } else if length <= 1023 {
      out[0], out[1] := LowByte(48 + length / 256), LowByte(length);
      index := 2;
    } else {
      out[0], out[1], out[2] := 83, LowByte(length / 256), LowByte(length);
      index := 3;
    }
    assert out[..index] == StringHeader(length);
    CopyBytes(out, index, s);
    n := Some(index + length);
  }
}
