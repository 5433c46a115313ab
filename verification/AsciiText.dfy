/**
 utf82ascii: every character beyond ASCII becomes one or two \u escapes. A
 printed JSON string survives it: the parser still reads the same string.
 */
module AsciiText {
  import opened Bytes
  import opened JsonText
  import opened JsonGrammar
  import opened JsonStrings
  import opened JsonTokens
  import opened Utf8

  function HexEscape(u: nat): (r: seq<byte>)
    requires u <= 0xFFFF
    ensures |r| == 6
  {
    [BACKSLASH, 117, HexDigit(u / 0x1000), HexDigit(u / 0x100 % 0x10), HexDigit(u / 0x10 % 0x10), HexDigit(u % 0x10)]
  }

  // What is written for one character: itself, or its UTF-16 code units.
  function AsciiOf(cp: nat): (r: seq<byte>)
    requires cp <= 0x10FFFF
    ensures |r| > 0
    ensures forall k :: 0 <= k < |r| ==> r[k] < 0x80
  {
    if cp < 0x80 then [cp]
    else if cp >= 0x10000 then
      HexEscape(0xD800 + (cp - 0x10000) / 0x400) + HexEscape(0xDC00 + (cp - 0x10000) % 0x400)
    else HexEscape(cp)
  }

  // The conversion of the text from `i` on; None when it is not valid UTF-8.
  function Ascii(s: seq<byte>, i: nat): (r: Option<seq<byte>>)
    requires i <= |s|
    ensures r.Some? ==> forall k :: 0 <= k < |r.value| ==> r.value[k] < 0x80
    decreases |s| - i
  {
    if i == |s| then Some([])
    else
      var step := DecodeAt(s, i);
      if step.code == UTF8_ERROR then None else Prepend(AsciiOf(step.code), Ascii(s, step.next))
  }

  // The conversion fails exactly on malformed UTF-8.
  lemma {:induction false} AsciiAccepts(s: seq<byte>, i: nat)
    requires i <= |s|
    ensures Ascii(s, i).Some? <==> WellFormed(s, i)
    decreases |s| - i
  {
    if i < |s| {
      DecodeAccepts(s, i);
      if CharLength(s, i) > 0 {
        AsciiAccepts(s, i + CharLength(s, i));
      }
    }
  }

  // What utf82ascii comes to. The buffer is created with twice the length of
  // the text, and creating one of size 0 ends the program.
  datatype Conversion = Converted(ascii: seq<byte>) | Invalid | Aborted

  function Convert(s: seq<byte>): Conversion {
    if s == [] then Aborted
    else match Ascii(s, 0)
         case Some(ascii) => Converted(ascii)
         case None => Invalid
  }

  // It fails exactly on malformed UTF-8, and ends the program exactly on the
  // empty string.
  lemma ConvertAccepts(s: seq<byte>)
    ensures Convert(s).Converted? <==> s != [] && WellFormed(s, 0)
    ensures Convert(s).Invalid? <==> !WellFormed(s, 0)
  {
    AsciiAccepts(s, 0);
  }

  // ----- The text of each character -----

  // A byte below 0x80 stays; the bytes of any other character become one
  // escape, or two for a character of four bytes, in lower case.
  predicate Written(u: Unit) {
    match u
    case Plain(b) => b < 0x80
    case Hex(digits, utf8) => OkUnit(u) && |utf8| > 1 && LowerCase(digits)
    case Pair(high, low, utf8) => OkUnit(u) && |utf8| > 1 && LowerCase(high) && LowerCase(low)
    case _ => false
  }

  predicate LowerCase(digits: seq<byte>) {
    forall i :: 0 <= i < |digits| ==> !(65 <= digits[i] <= 90)
  }

  lemma EscapeUnit(u: nat) returns (digits: seq<byte>)
    requires u <= 0xFFFF
    ensures |digits| == 4 && HexEscape(u) == [92, 117] + digits && Code(digits) == u && LowerCase(digits)
  {
    digits := HexEscape(u)[2..];
    AtWhole(HexEscape(u));
    HexEscapeInverts(u, HexEscape(u), 0);
    assert At(HexEscape(u), 2, digits);
    CodeIsHex4(digits, HexEscape(u), 2);
  }

  lemma UnitWritten(cp: nat) returns (u: Unit)
    requires 0x80 <= cp <= 0x10FFFF && !(0xD800 <= cp <= 0xDFFF)
    ensures Written(u) && UnitText(u) == AsciiOf(cp) && UnitBytes(u) == Encode(cp)
  {
    hide HexEscape, Code, IsUtf8;
    EncodesUtf8(cp);
    if cp < 0x10000 {
      var digits := EscapeUnit(cp);
      u := Hex(digits, Encode(cp));
    } else {
      var d := cp - 0x10000;
      Surrogates(d);
      var high := EscapeUnit(0xD800 + d / 0x400);
      var low := EscapeUnit(0xDC00 + d % 0x400);
      u := Pair(high, low, Encode(cp));
      assert UnitText(u) == ([92, 117] + high) + ([92, 117] + low);
    }
  }

  // The conversion writes text character by character.
  lemma {:induction false} AsciiWritten(s: seq<byte>, i: nat) returns (us: seq<Unit>)
    requires i <= |s| && WellFormed(s, i)
    ensures forall k :: 0 <= k < |us| ==> Written(us[k])
    ensures UnitsBytes(us) == s[i..] && Ascii(s, i) == Some(UnitsText(us))
    decreases |s| - i
  {
    hide At, DecodeAt, AsciiOf, Encode, Written, UnitText, UnitBytes, CharLength;
    if i == |s| {
      us := [];
    } else {
      var u, n := CharacterWritten(s, i);
      var more := AsciiWritten(s, i + n);
      us := [u] + more;
      assert us[1..] == more;
      assert s[i..] == s[i..i + n] + s[i + n..];
    }
  }

  lemma CharacterWritten(s: seq<byte>, i: nat) returns (u: Unit, n: nat)
    requires i < |s| && WellFormed(s, i)
    ensures n > 0 && i + n <= |s| && WellFormed(s, i + n) && Written(u) && UnitBytes(u) == s[i..i + n]
    ensures Ascii(s, i) == Prepend(UnitText(u), Ascii(s, i + n))
  {
    hide DecodeAt, AsciiOf, Encode, CharLength, Ascii, WellFormed, Written, UnitBytes, UnitText, AsciiEscaped;
    if s[i] < 0x80 {
      u, n := Plain(s[i]), 1;
      OneByte(s, i);
    } else {
      var cp;
      cp, n := AsciiEscapedHigh(s, i);
      AsciiStep(s, i);
      DecodeAccepts(s, i);
      u := UnitWritten(cp);
      StandsThere(s, i, Encode(cp));
    }
  }

  lemma OneByte(s: seq<byte>, i: nat)
    requires i < |s| && s[i] < 0x80 && WellFormed(s, i)
    ensures WellFormed(s, i + 1) && Written(Plain(s[i])) && UnitBytes(Plain(s[i])) == s[i..i + 1]
    ensures Ascii(s, i) == Prepend(UnitText(Plain(s[i])), Ascii(s, i + 1))
  {
  }

  // ----- A printed string, converted, and parsed again -----

  // The conversion of an escaped string, character by character of the string.
  function AsciiEscaped(s: seq<byte>, i: nat): seq<byte>
    requires i <= |s| && WellFormed(s, i)
    decreases |s| - i
  {
    if i == |s| then []
    else if s[i] < 0x80 then EscapedByte(s[i]) + AsciiEscaped(s, i + 1)
    else
      DecodeInverts(s, i);
      AsciiOf(DecodeAt(s, i).code) + AsciiEscaped(s, i + CharLength(s, i))
  }

  lemma {:induction false} AsciiPasses(r: seq<byte>, c: seq<byte>, k: nat)
    requires At(c, k, r) && forall j :: 0 <= j < |r| ==> r[j] < 0x80
    ensures Ascii(c, k) == Prepend(r, Ascii(c, k + |r|))
  {
    if r == [] {
      PrependNothing(Ascii(c, k));
    } else {
      assert [r[0]] + r[1..] == r;
      AtSplit(c, k, [r[0]], r[1..]);
      AtIndex(c, k, r, 0);
      AsciiPasses(r[1..], c, k + 1);
      PrependTwice([r[0]], r[1..], Ascii(c, k + |r|));
    }
  }

  // A well-formed character is decoded alike wherever it stands.
  lemma SameCharacter(s: seq<byte>, i: nat, c: seq<byte>, k: nat)
    requires i < |s| && CharLength(s, i) > 0 && At(c, k, s[i..i + CharLength(s, i)])
    ensures DecodeAt(c, k).code == DecodeAt(s, i).code != UTF8_ERROR
    ensures DecodeAt(c, k).next == k + CharLength(s, i)
  {
    var n := CharLength(s, i);
    var r := s[i..i + n];
    AtIndex(c, k, r, 0);
    if n > 1 { AtIndex(c, k, r, 1); }
    if n > 2 { AtIndex(c, k, r, 2); }
    if n > 3 { AtIndex(c, k, r, 3); }
    DecodeAccepts(s, i);
  }

  // Bytes beyond ASCII are not escaped.
  lemma {:induction false} EscapedHigh(s: seq<byte>, i: nat, n: nat)
    requires i + n <= |s| && forall j :: i <= j < i + n ==> s[j] >= 0x80
    ensures Escaped(s[i..]) == s[i..i + n] + Escaped(s[i + n..])
    decreases n
  {
    if n == 0 {
      assert s[i..i] + Escaped(s[i..]) == Escaped(s[i..]);
    } else {
      EscapedHigh(s, i + 1, n - 1);
      assert s[i..][1..] == s[i + 1..];
      Assoc([s[i]], s[i + 1..i + n], Escaped(s[i + n..]));
      assert [s[i]] + s[i + 1..i + n] == s[i..i + n];
    }
  }

  // The bytes of a character beyond ASCII are all beyond ASCII.
  lemma HighBytes(s: seq<byte>, i: nat)
    requires i < |s| && s[i] >= 0x80 && CharLength(s, i) > 0
    ensures forall j :: i <= j < i + CharLength(s, i) ==> s[j] >= 0x80
  {
  }

  lemma EscapedLow(s: seq<byte>, i: nat)
    requires i < |s|
    ensures Escaped(s[i..]) == EscapedByte(s[i]) + Escaped(s[i + 1..])
    ensures s[i] < 0x80 ==> forall j :: 0 <= j < |EscapedByte(s[i])| ==> EscapedByte(s[i])[j] < 0x80
  {
    assert s[i..][1..] == s[i + 1..];
  }

  lemma {:induction false} AsciiOfEscaped(s: seq<byte>, i: nat, c: seq<byte>, k: nat)
    requires i <= |s| && WellFormed(s, i) && At(c, k, Escaped(s[i..]))
    ensures Ascii(c, k) == Prepend(AsciiEscaped(s, i), Ascii(c, k + |Escaped(s[i..])|))
    decreases |s| - i, 1
  {
    if i == |s| {
      PrependNothing(Ascii(c, k));
    } else if s[i] < 0x80 {
      AsciiOfLow(s, i, c, k);
    } else {
      AsciiOfHigh(s, i, c, k);
    }
  }

  lemma {:induction false} AsciiOfLow(s: seq<byte>, i: nat, c: seq<byte>, k: nat)
    requires i < |s| && s[i] < 0x80 && WellFormed(s, i) && At(c, k, Escaped(s[i..]))
    ensures Ascii(c, k) == Prepend(AsciiEscaped(s, i), Ascii(c, k + |Escaped(s[i..])|))
    decreases |s| - i, 0
  {
    hide At;
    hide Ascii;
    hide EscapedByte;
    var r := EscapedByte(s[i]);
    EscapedLow(s, i);
    AtSplit(c, k, r, Escaped(s[i + 1..]));
    AsciiPasses(r, c, k);
    AsciiOfEscaped(s, i + 1, c, k + |r|);
    PrependTwice(r, AsciiEscaped(s, i + 1), Ascii(c, k + |Escaped(s[i..])|));
  }

  lemma {:induction false} AsciiOfHigh(s: seq<byte>, i: nat, c: seq<byte>, k: nat)
    requires i < |s| && s[i] >= 0x80 && WellFormed(s, i) && At(c, k, Escaped(s[i..]))
    ensures Ascii(c, k) == Prepend(AsciiEscaped(s, i), Ascii(c, k + |Escaped(s[i..])|))
    decreases |s| - i, 0
  {
    hide At;
    hide Ascii;
    hide DecodeAt;
    hide CharLength;
    hide AsciiOf;
    hide Escaped;
    hide AsciiEscaped;
    hide WellFormed;
    hide Encode;
    var cp, n := AsciiEscapedHigh(s, i);
    HighBytes(s, i);
    EscapedHigh(s, i, n);
    AtSplit(c, k, s[i..i + n], Escaped(s[i + n..]));
    SameCharacter(s, i, c, k);
    AsciiStep(c, k);
    AsciiOfEscaped(s, i + n, c, k + n);
    PrependTwice(AsciiOf(cp), AsciiEscaped(s, i + n), Ascii(c, k + |Escaped(s[i..])|));
  }

  lemma AsciiStep(c: seq<byte>, k: nat)
    requires k < |c|
    ensures Ascii(c, k) == if DecodeAt(c, k).code == UTF8_ERROR then None
                           else Prepend(AsciiOf(DecodeAt(c, k).code), Ascii(c, DecodeAt(c, k).next))
  {
  }

  // ----- Reading the escapes -----

  lemma HexEscapeInverts(u: nat, c: seq<byte>, k: nat)
    requires u <= 0xFFFF && At(c, k, HexEscape(u))
    ensures k + 6 <= |c| && c[k] == BACKSLASH && c[k + 1] == 117 && Hex4(c, k + 2) == u
    ensures forall j :: k + 2 <= j < k + 6 ==> c[j] != QUOTE && c[j] != BACKSLASH
  {
    var r := HexEscape(u);
    AtIndex(c, k, r, 0);
    AtIndex(c, k, r, 1);
    AtIndex(c, k, r, 2);
    AtIndex(c, k, r, 3);
    AtIndex(c, k, r, 4);
    AtIndex(c, k, r, 5);
    HexInverts(u / 0x1000);
    HexInverts(u / 0x100 % 0x10);
    HexInverts(u / 0x10 % 0x10);
    HexInverts(u % 0x10);
    HexSum(u);
  }

  lemma HexSum(u: nat)
    requires u <= 0xFFFF
    ensures u / 0x1000 * 0x1000 + u / 0x100 % 0x10 * 0x100 + u / 0x10 % 0x10 * 0x10 + u % 0x10 == u
  {
    assert u / 0x100 == u / 0x10 / 0x10 && u / 0x1000 == u / 0x100 / 0x10;
  }

  lemma QuotePassesHex(u: nat, c: seq<byte>, k: nat)
    requires u <= 0xFFFF && At(c, k, HexEscape(u))
    ensures ClosingQuote(c, k) == ClosingQuote(c, k + 6)
  {
    HexEscapeInverts(u, c, k);
    assert ClosingQuote(c, k) == ClosingQuote(c, k + 2);
    assert ClosingQuote(c, k + 2) == ClosingQuote(c, k + 3);
    assert ClosingQuote(c, k + 3) == ClosingQuote(c, k + 4);
    assert ClosingQuote(c, k + 4) == ClosingQuote(c, k + 5);
  }

  lemma QuotePassesAscii(cp: nat, c: seq<byte>, k: nat)
    requires 0x80 <= cp <= 0x10FFFF && At(c, k, AsciiOf(cp))
    ensures ClosingQuote(c, k) == ClosingQuote(c, k + |AsciiOf(cp)|)
  {
    if cp >= 0x10000 {
      var d := cp - 0x10000;
      AtSplit(c, k, HexEscape(0xD800 + d / 0x400), HexEscape(0xDC00 + d % 0x400));
      QuotePassesHex(0xD800 + d / 0x400, c, k);
      QuotePassesHex(0xDC00 + d % 0x400, c, k + 6);
    } else {
      QuotePassesHex(cp, c, k);
    }
  }

  lemma DecodeEscape(c: seq<byte>, k: nat, end: nat, cp: nat, n: nat)
    requires k + 6 <= end < |c| && c[k] == BACKSLASH && c[k + 1] == 117
    requires cp <= 0x10FFFF && Utf16At(c, k, end) == Some((cp, n))
    ensures Decode(c, k, end) == Prepend(Encode(cp), Decode(c, k + n, end))
  {
  }

  // One or two escapes are read as the character they were written for.
  lemma DecodeAscii(cp: nat, c: seq<byte>, k: nat, end: nat)
    requires 0x80 <= cp <= 0x10FFFF && !(0xD800 <= cp <= 0xDFFF)
    requires At(c, k, AsciiOf(cp)) && k + |AsciiOf(cp)| <= end < |c|
    ensures Decode(c, k, end) == Prepend(Encode(cp), Decode(c, k + |AsciiOf(cp)|, end))
  {
    hide Encode;
    hide Decode;
    hide Hex4;
    if cp >= 0x10000 {
      DecodePair(cp, c, k, end);
    } else {
      HexEscapeInverts(cp, c, k);
      DecodeEscape(c, k, end, cp, 6);
    }
  }

  lemma DecodePair(cp: nat, c: seq<byte>, k: nat, end: nat)
    requires 0x10000 <= cp <= 0x10FFFF && At(c, k, AsciiOf(cp)) && k + 12 <= end < |c|
    ensures Decode(c, k, end) == Prepend(Encode(cp), Decode(c, k + 12, end))
  {
    hide Encode;
    hide Decode;
    hide Hex4;
    hide HexEscape;
    var d := cp - 0x10000;
    AtSplit(c, k, HexEscape(0xD800 + d / 0x400), HexEscape(0xDC00 + d % 0x400));
    HexEscapeInverts(0xD800 + d / 0x400, c, k);
    HexEscapeInverts(0xDC00 + d % 0x400, c, k + 6);
    Surrogates(d);
    DecodeEscape(c, k, end, cp, 12);
  }

  lemma Surrogates(d: nat)
    requires d < 0x10_0000
    ensures (0xD800 + d / 0x400) % 0x400 == d / 0x400 && (0xDC00 + d % 0x400) % 0x400 == d % 0x400
    ensures 0xD800 + d / 0x400 <= 0xDBFF && d / 0x400 * 0x400 + d % 0x400 == d
  {
  }

  lemma AsciiEscapedEnd(s: seq<byte>)
    ensures WellFormed(s, |s|) && AsciiEscaped(s, |s|) == []
  {
  }

  // The first character of a string that is not yet at its end.
  lemma AsciiEscapedLow(s: seq<byte>, i: nat)
    requires i < |s| && s[i] < 0x80 && WellFormed(s, i)
    ensures WellFormed(s, i + 1) && AsciiEscaped(s, i) == EscapedByte(s[i]) + AsciiEscaped(s, i + 1)
  {
  }

  lemma AsciiEscapedHigh(s: seq<byte>, i: nat) returns (cp: nat, n: nat)
    requires i < |s| && s[i] >= 0x80 && WellFormed(s, i)
    ensures 0x80 <= cp <= 0x10FFFF && !(0xD800 <= cp <= 0xDFFF)
    ensures n > 0 && i + n <= |s| && WellFormed(s, i + n) && At(s, i, Encode(cp)) && n == |Encode(cp)|
    ensures cp == DecodeAt(s, i).code && n == CharLength(s, i)
    ensures AsciiEscaped(s, i) == AsciiOf(cp) + AsciiEscaped(s, i + n)
  {
    hide DecodeAt, CharLength, Encode, AsciiOf, At;
    DecodeAccepts(s, i);
    DecodeInverts(s, i);
    cp, n := DecodeAt(s, i).code, CharLength(s, i);
  }

  lemma {:induction false} QuotePassesAll(s: seq<byte>, i: nat, c: seq<byte>, k: nat)
    requires i <= |s| && WellFormed(s, i) && At(c, k, AsciiEscaped(s, i))
    ensures ClosingQuote(c, k) == ClosingQuote(c, k + |AsciiEscaped(s, i)|)
    decreases |s| - i
  {
    hide At;
    hide ClosingQuote;
    hide WellFormed;
    hide AsciiEscaped;
    hide EscapedByte;
    hide AsciiOf;
    hide Encode, DecodeAt, CharLength;
    if i == |s| {
      AsciiEscapedEnd(s);
    } else if s[i] < 0x80 {
      AsciiEscapedLow(s, i);
      AtSplit(c, k, EscapedByte(s[i]), AsciiEscaped(s, i + 1));
      QuotePassesByte(s[i], c, k);
      QuotePassesAll(s, i + 1, c, k + |EscapedByte(s[i])|);
    } else {
      var cp, n := AsciiEscapedHigh(s, i);
      AtSplit(c, k, AsciiOf(cp), AsciiEscaped(s, i + n));
      QuotePassesAscii(cp, c, k);
      QuotePassesAll(s, i + n, c, k + |AsciiOf(cp)|);
    }
  }

  lemma {:induction false} DecodeAll(s: seq<byte>, i: nat, c: seq<byte>, k: nat, end: nat)
    requires i <= |s| && NulFree(s) && WellFormed(s, i) && At(c, k, AsciiEscaped(s, i))
    requires end == k + |AsciiEscaped(s, i)| < |c|
    ensures Decode(c, k, end) == Some(s[i..])
    decreases |s| - i
  {
    hide At;
    hide Decode;
    hide WellFormed;
    hide AsciiEscaped;
    hide EscapedByte;
    hide AsciiOf;
    if i == |s| {
      AsciiEscapedEnd(s);
      DecodeEnd(c, end);
      assert s[i..] == [];
    } else if s[i] < 0x80 {
      AsciiEscapedLow(s, i);
      AtSplit(c, k, EscapedByte(s[i]), AsciiEscaped(s, i + 1));
      DecodeByte(s[i], c, k, end);
      DecodeAll(s, i + 1, c, k + |EscapedByte(s[i])|, end);
      assert [s[i]] + s[i + 1..] == s[i..];
    } else {
      var cp, n := AsciiEscapedHigh(s, i);
      AtSplit(c, k, AsciiOf(cp), AsciiEscaped(s, i + n));
      DecodeAscii(cp, c, k, end);
      DecodeAll(s, i + n, c, k + |AsciiOf(cp)|, end);
      AtPrefix(s, i, Encode(cp));
    }
  }

  lemma DecodeEnd(c: seq<byte>, end: nat)
    requires end < |c|
    ensures Decode(c, end, end) == Some([])
  {
  }

  lemma AtPrefix(s: seq<byte>, i: nat, r: seq<byte>)
    requires At(s, i, r)
    ensures i + |r| <= |s| && r + s[i + |r|..] == s[i..]
  {
  }

  // For every valid UTF-8 C string: its printed literal converts to ASCII, and
  // the parser reads the string back from the converted text.
  lemma AsciiRoundTrip(s: seq<byte>)
    requires NulFree(s) && WellFormed(s, 0)
    ensures Convert(RenderString(s)).Converted?
    ensures var text := Convert(RenderString(s)).ascii;
      (forall k :: 0 <= k < |text| ==> text[k] < 0x80) && ParseString(Terminated(text), 0) == Some((s, |text|))
  {
    var text := [QUOTE] + AsciiEscaped(s, 0) + [QUOTE];
    LiteralToAscii(s);
    AsciiLiteral(s, Terminated(text));
  }

  lemma LiteralToAscii(s: seq<byte>)
    requires WellFormed(s, 0)
    ensures Ascii(RenderString(s), 0) == Some([QUOTE] + AsciiEscaped(s, 0) + [QUOTE])
  {
    hide Ascii;
    hide At;
    hide Escaped;
    hide AsciiEscaped;
    hide WellFormed;
    var c, e := RenderString(s), Escaped(s);
    assert s[0..] == s;
    AtWhole(c);
    AtSplit3(c, 0, [QUOTE], e, [QUOTE]);
    AsciiPasses([QUOTE], c, 0);
    AsciiOfEscaped(s, 0, c, 1);
    AsciiPasses([QUOTE], c, 1 + |e|);
    AsciiEnds(c);
    var a := AsciiEscaped(s, 0);
    PrependTwice(a, [QUOTE], Some([]));
    PrependTwice([QUOTE], a + [QUOTE], Some([]));
    assert [QUOTE] + (a + [QUOTE]) + [] == [QUOTE] + a + [QUOTE];
  }

  lemma AsciiEnds(c: seq<byte>)
    ensures Ascii(c, |c|) == Some([])
  {
  }

  lemma AsciiLiteral(s: seq<byte>, c: seq<byte>)
    requires NulFree(s) && WellFormed(s, 0) && c == Terminated([QUOTE] + AsciiEscaped(s, 0) + [QUOTE])
    ensures ParseString(c, 0) == Some((s, |AsciiEscaped(s, 0)| + 2))
  {
    hide ClosingQuote;
    hide Decode;
    hide AsciiEscaped;
    var a := AsciiEscaped(s, 0);
    assert c[1..1 + |a|] == a;
    QuotePassesAll(s, 0, c, 1);
    QuoteHere(c, 1 + |a|);
    DecodeAll(s, 0, c, 1, 1 + |a|);
    assert s[0..] == s;
  }

  lemma QuoteHere(c: seq<byte>, i: nat)
    requires i < |c| && c[i] == QUOTE
    ensures ClosingQuote(c, i) == Some(i)
  {
  }

  // ----- The decoder's loop -----

  // The decoder's file-level state.
  class Decoder {
    const input: seq<byte>
    var theIndex: nat
    var theChar: nat
    var theByte: nat

    constructor (input: seq<byte>)
      ensures this.input == input && theIndex == 0 && theChar == 0 && theByte == 0
    {
      this.input := input;
      theIndex, theChar, theByte := 0, 0, 0;
    }

    method Get() returns (c: int)
      modifies this`theIndex
      ensures if old(theIndex) >= |input| then c == UTF8_END && theIndex == old(theIndex)
              else c == input[old(theIndex)] && theIndex == old(theIndex) + 1
    {
      if theIndex >= |input| {
        return UTF8_END;
      }
      c := input[theIndex];
      theIndex := theIndex + 1;
    }

    method NextCont() returns (r: int)
      requires theIndex <= |input|
      modifies this`theIndex
      ensures r == Cont(input, old(theIndex)) && theIndex == Clip(input, old(theIndex) + 1)
    {
      var c := Get();
      r := if 0x80 <= c <= 0xBF then c - 0x80 else UTF8_ERROR;
    }

    // utf8_decode_next
    method Next() returns (r: int)
      requires theIndex <= |input|
      modifies this
      ensures if old(theIndex) == |input| then r == UTF8_END && theIndex == old(theIndex)
              else r == DecodeAt(input, old(theIndex)).code && theIndex == DecodeAt(input, old(theIndex)).next
      ensures old(theIndex) < |input| ==> theByte == old(theIndex) && theChar == old(theChar) + 1
    {
      if theIndex >= |input| {
        return UTF8_END;
      }
      theByte := theIndex;
      theChar := theChar + 1;
      var c := Get();
      if c < 0x80 {
        return c;
      }
      if 0xC0 <= c < 0xE0 {
        var c1 := NextCont();
        if c1 >= 0 {
          r := (c % 0x20) * 0x40 + c1;
          if r >= 128 {
            return;
          }
        }
      } else if 0xE0 <= c < 0xF0 {
        var c1 := NextCont();
        var c2 := NextCont();
        if c1 >= 0 && c2 >= 0 {
          r := (c % 0x10) * 0x1000 + c1 * 0x40 + c2;
          if r >= 2048 && (r < 55296 || r > 57343) {
            return;
          }
        }
      } else if 0xF0 <= c < 0xF8 {
        var c1 := NextCont();
        var c2 := NextCont();
        var c3 := NextCont();
        if c1 >= 0 && c2 >= 0 && c3 >= 0 {
          r := (c % 0x08) * 0x40000 + c1 * 0x1000 + c2 * 0x40 + c3;
          if 65536 <= r <= 1114111 {
            return;
          }
        }
      }
      r := UTF8_ERROR;
    }
  }

  method AppendAscii(buf: seq<byte>, c: nat) returns (buf': seq<byte>)
    requires c <= 0x10FFFF
    ensures buf' == buf + AsciiOf(c)
  {
    if 0 <= c <= 127 {
      buf' := buf + [c];
    } else if c >= 0x10000 {
      var d := c - 0x10000;
      buf' := buf + HexEscape(0xD800 + d / 0x400) + HexEscape(0xDC00 + d % 0x400);
      Assoc(buf, HexEscape(0xD800 + d / 0x400), HexEscape(0xDC00 + d % 0x400));
    } else {
      buf' := buf + HexEscape(c);
    }
  }

  method Utf82Ascii(s: seq<byte>) returns (result: Conversion)
    ensures result == Convert(s)
  {
    hide Ascii;
    hide DecodeAt;
    hide AsciiOf;
    if 2 * |s| == 0 {
      return Aborted;
    }
    var buf: seq<byte> := [];
    var decoder := new Decoder(s);
    PrependNothing(Ascii(s, 0));
    ghost var at := 0;
    var c := decoder.Next();
    while c != UTF8_END
      invariant at <= decoder.theIndex <= |s| && decoder.input == s
      invariant Ascii(s, 0) == Prepend(buf, Ascii(s, at))
      invariant if at == |s| then c == UTF8_END
                else c == DecodeAt(s, at).code && decoder.theIndex == DecodeAt(s, at).next
      decreases |s| - at
    {
      AsciiStep(s, at);
      if c == UTF8_ERROR {
        return Invalid;
      }
      at := decoder.theIndex;
      PrependTwice(buf, AsciiOf(c), Ascii(s, at));
      buf := AppendAscii(buf, c);
      c := decoder.Next();
    }
    AsciiEnds(s);
    assert buf + [] == buf;
    result := Converted(buf);
  }
}
