/**
 Unicode text. The strict decoder is specified by a function on positions and
 compared with the grammar of well-formed UTF-8 (section 4 of RFC 3629), which
 is written down independently, byte range by byte range.
 */
module Utf8 {
  import opened Bytes

  const UTF8_END := -1
  const UTF8_ERROR := -2

  // The 6-bit payload of the byte at `i`, or UTF8_ERROR when it is not a
  // continuation byte or there is none.
  function Cont(s: seq<byte>, i: nat): (r: int)
    ensures r == UTF8_ERROR || 0 <= r < 64
  {
    if i < |s| && 0x80 <= s[i] <= 0xBF then s[i] - 0x80 else UTF8_ERROR
  }

  datatype Step = Step(code: int, next: nat)

  // One call of the decoder at position `i`: the character or error, and the
  // position after the bytes that were fetched.
  function DecodeAt(s: seq<byte>, i: nat): (r: Step)
    requires i < |s|
    ensures i < r.next <= |s|
    ensures r.code == UTF8_ERROR || 0 <= r.code <= 0x10FFFF
  {
    var c := s[i];
    if c < 0x80 then Step(c, i + 1)
    else if 0xC0 <= c < 0xE0 then
      var c1 := Cont(s, i + 1);
      var r := (c % 0x20) * 0x40 + c1;
      Step(if c1 >= 0 && r >= 0x80 then r else UTF8_ERROR, Clip(s, i + 2))
    else if 0xE0 <= c < 0xF0 then
      var c1, c2 := Cont(s, i + 1), Cont(s, i + 2);
      var r := (c % 0x10) * 0x1000 + c1 * 0x40 + c2;
      Step(if c1 >= 0 && c2 >= 0 && r >= 0x800 && (r < 0xD800 || r > 0xDFFF) then r else UTF8_ERROR, Clip(s, i + 3))
    else if 0xF0 <= c < 0xF8 then
      var c1, c2, c3 := Cont(s, i + 1), Cont(s, i + 2), Cont(s, i + 3);
      var r := (c % 0x08) * 0x40000 + c1 * 0x1000 + c2 * 0x40 + c3;
      Step(if c1 >= 0 && c2 >= 0 && c3 >= 0 && 0x10000 <= r <= 0x10FFFF then r else UTF8_ERROR, Clip(s, i + 4))
    else Step(UTF8_ERROR, i + 1)
  }

  // Fetching stops at the end of the input.
  function Clip(s: seq<byte>, i: nat): nat {
    if i <= |s| then i else |s|
  }

  // ----- Well-formed UTF-8, section 4 of RFC 3629 -----

  predicate Tail(b: byte) {
    0x80 <= b <= 0xBF
  }

  predicate WellFormed2(a: byte, b: byte) {
    0xC2 <= a <= 0xDF && Tail(b)
  }

  predicate WellFormed3(a: byte, b: byte, c: byte) {
    Tail(c) &&
    ((a == 0xE0 && 0xA0 <= b <= 0xBF) || (0xE1 <= a <= 0xEC && Tail(b)) ||
     (a == 0xED && 0x80 <= b <= 0x9F) || (0xEE <= a <= 0xEF && Tail(b)))
  }

  predicate WellFormed4(a: byte, b: byte, c: byte, d: byte) {
    Tail(c) && Tail(d) &&
    ((a == 0xF0 && 0x90 <= b <= 0xBF) || (0xF1 <= a <= 0xF3 && Tail(b)) || (a == 0xF4 && 0x80 <= b <= 0x8F))
  }

  // The length of the well-formed character that starts at `i`, or 0.
  function CharLength(s: seq<byte>, i: nat): (n: nat)
    requires i < |s|
    ensures n <= 4 && i + n <= |s|
  {
    if s[i] <= 0x7F then 1
    else if i + 2 <= |s| && WellFormed2(s[i], s[i + 1]) then 2
    else if i + 3 <= |s| && WellFormed3(s[i], s[i + 1], s[i + 2]) then 3
    else if i + 4 <= |s| && WellFormed4(s[i], s[i + 1], s[i + 2], s[i + 3]) then 4
    else 0
  }

  predicate WellFormed(s: seq<byte>, i: nat)
    requires i <= |s|
    decreases |s| - i
  {
    i == |s| || (CharLength(s, i) > 0 && WellFormed(s, i + CharLength(s, i)))
  }

  // UTF-8 of a code point, as the JSON parser writes it: continuation bytes
  // from the last to the second, then the first with its length mark.
  function Encode(cp: nat): (r: seq<byte>)
    requires cp <= 0x10FFFF
    ensures 1 <= |r| <= 4
  {
    if cp < 0x80 then [cp]
    else if cp < 0x800 then [0xC0 + cp / 0x40, 0x80 + cp % 0x40]
    else if cp < 0x10000 then [0xE0 + cp / 0x1000, 0x80 + cp / 0x40 % 0x40, 0x80 + cp % 0x40]
    else [0xF0 + cp / 0x40000, 0x80 + cp / 0x1000 % 0x40, 0x80 + cp / 0x40 % 0x40, 0x80 + cp % 0x40]
  }

  // The decoder accepts exactly the well-formed characters.
  lemma DecodeAccepts(s: seq<byte>, i: nat)
    requires i < |s|
    ensures DecodeAt(s, i).code != UTF8_ERROR <==> CharLength(s, i) > 0
    ensures CharLength(s, i) > 0 ==> DecodeAt(s, i).next == i + CharLength(s, i)
  {
    hide DecodeAt;
    if 0xC0 <= s[i] < 0xE0 {
      Accepts2(s, i);
    } else if 0xE0 <= s[i] < 0xF0 {
      Accepts3(s, i);
    } else if 0xF0 <= s[i] < 0xF8 {
      Accepts4(s, i);
    } else {
      Accepts1(s, i);
    }
  }

  // By what the first byte announces.
  lemma Accepts1(s: seq<byte>, i: nat)
    requires i < |s| && (s[i] < 0xC0 || s[i] >= 0xF8)
    ensures DecodeAt(s, i).code != UTF8_ERROR <==> s[i] < 0x80
    ensures DecodeAt(s, i).next == i + 1
  {
  }

  lemma Accepts2(s: seq<byte>, i: nat)
    requires i < |s| && 0xC0 <= s[i] < 0xE0
    ensures DecodeAt(s, i).code != UTF8_ERROR <==> i + 2 <= |s| && WellFormed2(s[i], s[i + 1])
    ensures i + 2 <= |s| ==> DecodeAt(s, i).next == i + 2
  {
  }

  lemma Accepts3(s: seq<byte>, i: nat)
    requires i < |s| && 0xE0 <= s[i] < 0xF0
    ensures DecodeAt(s, i).code != UTF8_ERROR <==> i + 3 <= |s| && WellFormed3(s[i], s[i + 1], s[i + 2])
    ensures i + 3 <= |s| ==> DecodeAt(s, i).next == i + 3
  {
  }

  lemma Accepts4(s: seq<byte>, i: nat)
    requires i < |s| && 0xF0 <= s[i] < 0xF8
    ensures DecodeAt(s, i).code != UTF8_ERROR <==>
      i + 4 <= |s| && WellFormed4(s[i], s[i + 1], s[i + 2], s[i + 3])
    ensures i + 4 <= |s| ==> DecodeAt(s, i).next == i + 4
  {
  }

  lemma Digits(x: nat, c: nat, cp: nat)
    requires c < 0x40 && cp == x * 0x40 + c
    ensures cp / 0x40 == x && cp % 0x40 == c
  {
  }

  lemma Digits3(a: nat, b: nat, c: nat, cp: nat)
    requires b < 0x40 && c < 0x40 && cp == a * 0x1000 + b * 0x40 + c
    ensures cp / 0x1000 == a && cp / 0x40 % 0x40 == b && cp % 0x40 == c
  {
    Digits(a * 0x40 + b, c, cp);
    Digits(a, b, a * 0x40 + b);
    assert cp / 0x1000 == cp / 0x40 / 0x40;
  }

  lemma Digits4(a: nat, b: nat, c: nat, d: nat, cp: nat)
    requires b < 0x40 && c < 0x40 && d < 0x40 && cp == a * 0x40000 + b * 0x1000 + c * 0x40 + d
    ensures cp / 0x40000 == a && cp / 0x1000 % 0x40 == b && cp / 0x40 % 0x40 == c && cp % 0x40 == d
  {
    Digits3(a * 0x40 + b, c, d, cp);
    Digits(a, b, a * 0x40 + b);
    assert cp / 0x40000 == cp / 0x1000 / 0x40;
  }

  // A decoded character determines its bytes.
  lemma DecodeInverts(s: seq<byte>, i: nat)
    requires i < |s| && CharLength(s, i) > 0
    ensures var r := DecodeAt(s, i);
      0 <= r.code <= 0x10FFFF && At(s, i, Encode(r.code)) && r.next == i + |Encode(r.code)|
    ensures s[i] >= 0x80 <==> DecodeAt(s, i).code >= 0x80
    ensures s[i] < 0x80 ==> DecodeAt(s, i).code == s[i]
    ensures !(0xD800 <= DecodeAt(s, i).code <= 0xDFFF)
  {
    DecodeAccepts(s, i);
    match CharLength(s, i) {
      case 1 =>
        assert s[i..i + 1] == [s[i]];
      case 2 =>
        DecodeInverts2(s, i);
      case 3 =>
        DecodeInverts3(s, i);
      case 4 =>
        DecodeInverts4(s, i);
    }
  }

  lemma DecodeInverts2(s: seq<byte>, i: nat)
    requires i + 2 <= |s| && WellFormed2(s[i], s[i + 1])
    ensures var cp := DecodeAt(s, i).code;
      0x80 <= cp < 0x800 && At(s, i, Encode(cp)) && |Encode(cp)| == 2
  {
    Digits(s[i] - 0xC0, s[i + 1] - 0x80, DecodeAt(s, i).code);
    assert s[i..i + 2] == [s[i], s[i + 1]];
  }

  lemma Decode3(s: seq<byte>, i: nat)
    requires i + 3 <= |s| && WellFormed3(s[i], s[i + 1], s[i + 2])
    ensures var cp := DecodeAt(s, i).code;
      && cp == (s[i] as int - 0xE0) * 0x1000 + (s[i + 1] as int - 0x80) * 0x40 + (s[i + 2] - 0x80)
      && 0x800 <= cp < 0x10000 && !(0xD800 <= cp <= 0xDFFF)
  {
  }

  lemma DecodeInverts3(s: seq<byte>, i: nat)
    requires i + 3 <= |s| && WellFormed3(s[i], s[i + 1], s[i + 2])
    ensures var cp := DecodeAt(s, i).code;
      0x800 <= cp < 0x10000 && !(0xD800 <= cp <= 0xDFFF) && At(s, i, Encode(cp)) && |Encode(cp)| == 3
  {
    hide DecodeAt;
    Decode3(s, i);
    Digits3(s[i] - 0xE0, s[i + 1] - 0x80, s[i + 2] - 0x80, DecodeAt(s, i).code);
    assert s[i..i + 3] == [s[i], s[i + 1], s[i + 2]];
  }

  lemma Decode4(s: seq<byte>, i: nat)
    requires i + 4 <= |s| && WellFormed4(s[i], s[i + 1], s[i + 2], s[i + 3])
    ensures var cp := DecodeAt(s, i).code;
      && cp == (s[i] as int - 0xF0) * 0x40000 + (s[i + 1] as int - 0x80) * 0x1000
               + (s[i + 2] as int - 0x80) * 0x40 + (s[i + 3] - 0x80)
      && 0x10000 <= cp <= 0x10FFFF
  {
  }

  lemma DecodeInverts4(s: seq<byte>, i: nat)
    requires i + 4 <= |s| && WellFormed4(s[i], s[i + 1], s[i + 2], s[i + 3])
    ensures var cp := DecodeAt(s, i).code;
      0x10000 <= cp <= 0x10FFFF && At(s, i, Encode(cp)) && |Encode(cp)| == 4
  {
    hide DecodeAt;
    Decode4(s, i);
    Digits4(s[i] - 0xF0, s[i + 1] - 0x80, s[i + 2] - 0x80, s[i + 3] - 0x80, DecodeAt(s, i).code);
    assert s[i..i + 4] == [s[i], s[i + 1], s[i + 2], s[i + 3]];
  }
}
