/**
 String literals and numbers of JSON text, written down piece by piece without
 the parser: how a character may be spelled, what it then stands for, and the
 parts of a decimal. The parser accepts exactly these.
 */
module JsonTokens {
  import opened Bytes
  import opened JsonGrammar
  import Utf8

  // ----- Characters of string literals -----

  // One step of the walk over the inside of a literal: a byte as it is, an
  // escape of one letter, one of four hexadecimal digits, or two of those that
  // are a surrogate pair. A backslash that comes last takes the closing quote
  // for its letter; a hexadecimal escape that swallows a backslash leads there.
  datatype Unit =
    | Plain(b: byte)
    | Short(letter: byte)
    | Hex(digits: seq<byte>, utf8: seq<byte>)
    | Pair(high: seq<byte>, low: seq<byte>, utf8: seq<byte>)
    | Last

  // The value of a hexadecimal digit of either case, -1 for another byte.
  function Nibble(b: byte): int {
    if 48 <= b <= 57 then b - 48
    else if 65 <= b <= 70 then 10 + b - 65
    else if 97 <= b <= 102 then 10 + b - 97
    else -1
  }

  predicate AllNibbles(d: seq<byte>)
    requires |d| == 4
  {
    Nibble(d[0]) >= 0 && Nibble(d[1]) >= 0 && Nibble(d[2]) >= 0 && Nibble(d[3]) >= 0
  }

  // The code of four digits; it is 0 if one of them is no digit.
  function Code(d: seq<byte>): (v: nat)
    requires |d| == 4
    ensures v < 0x10000
  {
    if AllNibbles(d) then ((Nibble(d[0]) * 16 + Nibble(d[1])) * 16 + Nibble(d[2])) * 16 + Nibble(d[3]) else 0
  }

  // The bytes of a code point, section 3 of RFC 3629.
  predicate IsUtf8(r: seq<byte>, cp: nat) {
    match |r|
    case 1 => cp < 0x80 && cp == r[0]
    case 2 => 0x80 <= cp < 0x800 && Head(r[0], 0xC0, 0xE0) && Tail(r[1]) && cp == Six(r[0] as int - 0xC0, r[1])
    case 3 =>
      && 0x800 <= cp < 0x10000 && Head(r[0], 0xE0, 0xF0) && Tail(r[1]) && Tail(r[2])
      && cp == Six(Six(r[0] as int - 0xE0, r[1]), r[2])
    case 4 =>
      && 0x10000 <= cp < 0x110000 && Head(r[0], 0xF0, 0xF8) && Tail(r[1]) && Tail(r[2]) && Tail(r[3])
      && cp == Six(Six(Six(r[0] as int - 0xF0, r[1]), r[2]), r[3])
    case _ => false
  }

  // Six bits more.
  function Six(high: int, b: byte): int {
    high * 64 + (b as int - 128)
  }

  predicate Head(b: byte, from: int, to: int) {
    from <= b < to
  }

  predicate Tail(b: byte) {
    0x80 <= b < 0xC0
  }

  // The letters that may follow a backslash: the quote, the backslash, the slash
  // and b, f, n, r, t. The first three stand for themselves.
  predicate IsShort(letter: byte) {
    letter in {34, 92, 47, 98, 102, 110, 114, 116}
  }

  function ShortByte(letter: byte): byte {
    if letter == 98 then 8
    else if letter == 116 then 9
    else if letter == 110 then 10
    else if letter == 102 then 12
    else if letter == 114 then 13
    else letter
  }

  predicate OkUnit(u: Unit) {
    match u
    case Plain(b) => b != 92
    case Short(letter) => IsShort(letter)
    case Hex(d, utf8) => |d| == 4 && !(0xD800 <= Code(d) < 0xE000) && IsUtf8(utf8, Code(d))
    case Pair(h, l, utf8) =>
      && |h| == 4 && |l| == 4 && 0xD800 <= Code(h) < 0xDC00 <= Code(l) < 0xE000
      && IsUtf8(utf8, 0x10000 + (Code(h) - 0xD800) * 0x400 + (Code(l) - 0xDC00))
    case Last => true
  }

  function UnitText(u: Unit): (r: seq<byte>)
    ensures |r| > 0
  {
    match u
    case Plain(b) => [b]
    case Short(letter) => [92, letter]
    case Hex(d, _) => [92, 117] + d
    case Pair(h, l, _) => [92, 117] + h + [92, 117] + l
    case Last => [92]
  }

  function UnitBytes(u: Unit): seq<byte> {
    match u
    case Plain(b) => [b]
    case Short(letter) => [ShortByte(letter)]
    case Hex(_, utf8) => utf8
    case Pair(_, _, utf8) => utf8
    case Last => [34]
  }

  predicate OkUnits(us: seq<Unit>) {
    forall i :: 0 <= i < |us| ==> OkUnit(us[i]) && (us[i].Last? ==> i == |us| - 1)
  }

  function UnitsText(us: seq<Unit>): seq<byte> {
    if us == [] then [] else UnitText(us[0]) + UnitsText(us[1..])
  }

  function UnitsBytes(us: seq<Unit>): seq<byte> {
    if us == [] then [] else UnitBytes(us[0]) + UnitsBytes(us[1..])
  }

  // No quote closes the literal earlier: a backslash escapes one byte, whatever
  // it is.
  predicate Open(body: seq<byte>) {
    || body == []
    || (body[0] != 34 && body[0] != 92 && Open(body[1..]))
    || (body[0] == 92 && |body| >= 2 && Open(body[2..]))
  }

  // The units of the inside of a literal.
  predicate OkString(us: seq<Unit>) {
    OkUnits(us) && Open(UnitsText(us))
  }

  function Quoted(us: seq<Unit>): seq<byte> {
    [34] + UnitsText(us) + [34]
  }

  // Units as section 7 of RFC 8259 has them.
  predicate Regular(u: Unit) {
    match u
    case Plain(b) => b != 34
    case Hex(d, _) => |d| == 4 && AllNibbles(d)
    case Last => false
    case _ => true
  }

  lemma OpenPlain(b: byte, rest: seq<byte>)
    requires b != 34 && b != 92
    ensures Open([b] + rest) <==> Open(rest)
  {
    assert ([b] + rest)[1..] == rest;
  }

  lemma OpenEscape(b: byte, rest: seq<byte>)
    ensures Open([92, b] + rest) <==> Open(rest)
  {
    assert ([92, b] + rest)[2..] == rest;
  }

  lemma OpenDigits(d: seq<byte>, rest: seq<byte>)
    requires |d| == 4 && AllNibbles(d)
    ensures Open(d + rest) <==> Open(rest)
  {
    assert d + rest == [d[0]] + ([d[1]] + ([d[2]] + ([d[3]] + rest)));
    OpenPlain(d[0], [d[1]] + ([d[2]] + ([d[3]] + rest)));
    OpenPlain(d[1], [d[2]] + ([d[3]] + rest));
    OpenPlain(d[2], [d[3]] + rest);
    OpenPlain(d[3], rest);
  }

  // They close no literal early.
  lemma {:induction false} RegularOpen(us: seq<Unit>)
    requires forall i :: 0 <= i < |us| ==> OkUnit(us[i]) && Regular(us[i])
    ensures OkString(us)
  {
    hide Open, Nibble, Code, IsUtf8;
    if us == [] {
      NothingOpen();
    } else {
      var rest := UnitsText(us[1..]);
      RegularOpen(us[1..]);
      match us[0] {
        case Plain(b) => OpenPlain(b, rest);
        case Short(letter) => OpenEscape(letter, rest);
        case Hex(d, _) => OpenHex(d, rest);
        case Pair(h, l, _) =>
          CodeOfDigits(h);
          CodeOfDigits(l);
          assert UnitText(us[0]) + rest == [92, 117] + h + ([92, 117] + l + rest);
          OpenHex(h, [92, 117] + l + rest);
          OpenHex(l, rest);
      }
    }
  }

  lemma NothingOpen()
    ensures Open([])
  {
  }

  lemma CodeOfDigits(d: seq<byte>)
    requires |d| == 4 && Code(d) > 0
    ensures AllNibbles(d)
  {
  }

  lemma OpenHex(d: seq<byte>, rest: seq<byte>)
    requires |d| == 4 && AllNibbles(d)
    ensures Open([92, 117] + d + rest) <==> Open(rest)
  {
    hide Open;
    assert [92, 117] + d + rest == [92, 117] + (d + rest);
    OpenEscape(117, d + rest);
    OpenDigits(d, rest);
  }

  // ----- The parser accepts exactly these literals -----

  lemma EncodesUtf8(cp: nat)
    requires cp <= 0x10FFFF
    ensures IsUtf8(Utf8.Encode(cp), cp)
  {
    if 0x10000 <= cp {
      assert cp / 0x1000 == cp / 0x40 / 0x40 && cp / 0x40000 == cp / 0x40 / 0x40 / 0x40;
    } else if 0x800 <= cp {
      assert cp / 0x1000 == cp / 0x40 / 0x40;
    }
  }

  lemma OneUtf8(r: seq<byte>, cp: nat)
    requires IsUtf8(r, cp)
    ensures cp <= 0x10FFFF && r == Utf8.Encode(cp)
  {
    hide Utf8.Encode;
    match |r| {
      case 1 => OneUtf8Of1(r, cp);
      case 2 => OneUtf8Of2(r, cp);
      case 3 => OneUtf8Of3(r, cp);
      case _ => OneUtf8Of4(r, cp);
    }
  }

  lemma OneUtf8Of1(r: seq<byte>, cp: nat)
    requires |r| == 1 && IsUtf8(r, cp)
    ensures r == Utf8.Encode(cp)
  {
  }

  lemma OneUtf8Of2(r: seq<byte>, cp: nat)
    requires |r| == 2 && IsUtf8(r, cp)
    ensures r == Utf8.Encode(cp)
  {
    Utf8.Digits(r[0] - 0xC0, r[1] - 0x80, cp);
  }

  lemma OneUtf8Of3(r: seq<byte>, cp: nat)
    requires |r| == 3 && IsUtf8(r, cp)
    ensures r == Utf8.Encode(cp)
  {
    Utf8.Digits3(r[0] - 0xE0, r[1] - 0x80, r[2] - 0x80, cp);
  }

  lemma OneUtf8Of4(r: seq<byte>, cp: nat)
    requires |r| == 4 && IsUtf8(r, cp)
    ensures r == Utf8.Encode(cp)
  {
    Utf8.Digits4(r[0] - 0xF0, r[1] - 0x80, r[2] - 0x80, r[3] - 0x80, cp);
  }

  lemma CodeIsHex4(d: seq<byte>, c: seq<byte>, i: nat)
    requires |d| == 4 && At(c, i, d)
    ensures Hex4(c, i) == Code(d)
  {
    AtIndex(c, i, d, 0);
    AtIndex(c, i, d, 1);
    AtIndex(c, i, d, 2);
    AtIndex(c, i, d, 3);
  }

  // Where a unit stands, a step of the parser gives its bytes.
  lemma UnitDecodes(u: Unit, c: seq<byte>, i: nat, end: nat)
    requires OkUnit(u) && At(c, i, UnitText(u)) && end < |c| && c[end] == 34
    requires i + |UnitText(u)| <= end && (u.Last? ==> i + 1 == end)
    ensures Decode(c, i, end) == Prepend(UnitBytes(u), Decode(c, i + |UnitText(u)|, end))
  {
    hide Hex4, Code, IsUtf8, Utf8.Encode;
    AtIndex(c, i, UnitText(u), 0);
    match u {
      case Plain(_) =>
      case Short(_) => AtIndex(c, i, UnitText(u), 1);
      case Hex(d, utf8) =>
        AtIndex(c, i, UnitText(u), 1);
        AtSplit(c, i, [92, 117], d);
        CodeIsHex4(d, c, i + 2);
        OneUtf8(utf8, Code(d));
      case Pair(_, _, _) => PairDecodes(u, c, i, end);
      case Last =>
    }
  }

  lemma PairDecodes(u: Unit, c: seq<byte>, i: nat, end: nat)
    requires u.Pair? && OkUnit(u) && At(c, i, UnitText(u)) && i + 12 <= end < |c|
    ensures c[i] == 92 && c[i + 1] == 117 && Utf16At(c, i, end).Some?
    ensures Utf16At(c, i, end).value.1 == 12 && Utf8.Encode(Utf16At(c, i, end).value.0) == u.utf8
  {
    hide Hex4, Code, IsUtf8, Utf8.Encode;
    AtIndex(c, i, UnitText(u), 0);
    AtIndex(c, i, UnitText(u), 1);
    AtIndex(c, i, UnitText(u), 6);
    AtIndex(c, i, UnitText(u), 7);
    AtSplit3(c, i, [92, 117] + u.high, [92, 117], u.low);
    AtSplit(c, i, [92, 117], u.high);
    CodeIsHex4(u.high, c, i + 2);
    CodeIsHex4(u.low, c, i + 8);
    OneUtf8(u.utf8, 0x10000 + (Code(u.high) - 0xD800) * 0x400 + (Code(u.low) - 0xDC00));
    SurrogateBits(Code(u.high), Code(u.low));
  }

  lemma SurrogateBits(high: nat, low: nat)
    requires 0xD800 <= high < 0xDC00 <= low < 0xE000
    ensures high % 0x400 == high - 0xD800 && low % 0x400 == low - 0xDC00
  {
  }

  lemma {:induction false} UnitsDecode(us: seq<Unit>, c: seq<byte>, i: nat, end: nat)
    requires OkUnits(us) && At(c, i, UnitsText(us)) && end == i + |UnitsText(us)| < |c| && c[end] == 34
    ensures Decode(c, i, end) == Some(UnitsBytes(us))
  {
    hide At, OkUnit, UnitText, UnitBytes, Decode;
    if us == [] {
      NothingDecoded(c, i, end);
    } else {
      LastIsShort(us[0]);
      AtSplit(c, i, UnitText(us[0]), UnitsText(us[1..]));
      UnitDecodes(us[0], c, i, end);
      UnitsDecode(us[1..], c, i + |UnitText(us[0])|, end);
    }
  }

  lemma LastIsShort(u: Unit)
    ensures u.Last? ==> |UnitText(u)| == 1
  {
  }

  lemma NothingDecoded(c: seq<byte>, i: nat, end: nat)
    requires i == end < |c|
    ensures Decode(c, i, end) == Some([])
  {
  }

  lemma {:induction false} OpenCloses(body: seq<byte>, c: seq<byte>, i: nat)
    requires Open(body) && At(c, i, body) && i + |body| < |c| && c[i + |body|] == 34
    ensures ClosingQuote(c, i) == Some(i + |body|)
    decreases |body|
  {
    if body != [] {
      AtIndex(c, i, body, 0);
      if body[0] == 92 {
        assert body == body[..2] + body[2..];
        AtSplit(c, i, body[..2], body[2..]);
        OpenCloses(body[2..], c, i + 2);
      } else {
        assert body == [body[0]] + body[1..];
        AtSplit(c, i, [body[0]], body[1..]);
        OpenCloses(body[1..], c, i + 1);
      }
    }
  }

  lemma StringParses(us: seq<Unit>, c: seq<byte>, o: nat)
    requires OkString(us) && At(c, o, Quoted(us))
    ensures o < |c| && ParseString(c, o) == Some((UnitsBytes(us), o + |Quoted(us)|))
  {
    hide At, OkUnits, Open, UnitsText, UnitsBytes, ClosingQuote, Decode;
    AtSplit3(c, o, [34], UnitsText(us), [34]);
    AtIndex(c, o, [34], 0);
    AtIndex(c, o + 1 + |UnitsText(us)|, [34], 0);
    OpenCloses(UnitsText(us), c, o + 1);
    UnitsDecode(us, c, o + 1, o + 1 + |UnitsText(us)|);
  }

  // ----- And no others -----

  lemma {:induction false} ClosedIsOpen(c: seq<byte>, i: nat, end: nat)
    requires ClosingQuote(c, i) == Some(end)
    ensures i <= end < |c| && c[end] == 34 && Open(c[i..end])
    decreases |c| - i
  {
    if c[i] != 34 {
      var n := if c[i] == 92 then 2 else 1;
      ClosedIsOpen(c, i + n, end);
      assert c[i..end][n..] == c[i + n..end];
    }
  }

  // The unit that a step of the parser reads.
  lemma UnitOf(c: seq<byte>, i: nat, end: nat) returns (u: Unit)
    requires i < end < |c| && c[end] == 34 && Decode(c, i, end).Some?
    ensures OkUnit(u) && At(c, i, UnitText(u)) && i + |UnitText(u)| <= end && (u.Last? ==> i + 1 == end)
  {
    hide Hex4, Code, IsUtf8, Utf8.Encode;
    if c[i] != 92 {
      u := Plain(c[i]);
      assert c[i..i + 1] == UnitText(u);
    } else if i + 1 == end {
      u := Last;
      assert c[i..i + 1] == UnitText(u);
    } else if c[i + 1] == 117 {
      u := EscapeOf(c, i, end);
    } else {
      u := Short(c[i + 1]);
      assert c[i..i + 2] == UnitText(u);
    }
  }

  lemma EscapeParts(c: seq<byte>, i: nat, end: nat)
    requires i <= end < |c| && Utf16At(c, i, end).Some?
    ensures i + 6 <= end && !(0xDC00 <= Hex4(c, i + 2) <= 0xDFFF)
    ensures 0xD800 <= Hex4(c, i + 2) <= 0xDBFF ==>
      i + 12 <= end && c[i + 6] == 92 && c[i + 7] == 117 && 0xDC00 <= Hex4(c, i + 8) <= 0xDFFF
  {
    hide Hex4;
  }

  // The digits of an escape, and where it stands.
  lemma EscapeAt(c: seq<byte>, i: nat) returns (d: seq<byte>)
    requires i + 6 <= |c| && c[i] == 92 && c[i + 1] == 117
    ensures |d| == 4 && Hex4(c, i + 2) == Code(d) && c[i..i + 6] == [92, 117] + d
  {
    hide Hex4, Code;
    d := c[i + 2..i + 6];
    CodeIsHex4(d, c, i + 2);
  }

  lemma EscapeOf(c: seq<byte>, i: nat, end: nat) returns (u: Unit)
    requires i + 1 < end < |c| && c[i] == 92 && c[i + 1] == 117 && Utf16At(c, i, end).Some?
    ensures OkUnit(u) && At(c, i, UnitText(u)) && i + |UnitText(u)| <= end && !u.Last?
  {
    hide Hex4, Code, IsUtf8, Utf8.Encode, Utf16At, OkUnit, UnitText;
    EscapeParts(c, i, end);
    var d := EscapeAt(c, i);
    if 0xD800 <= Code(d) <= 0xDBFF {
      var l := EscapeAt(c, i + 6);
      u := PairOf(d, l);
      assert c[i..i + 12] == c[i..i + 6] + c[i + 6..i + 12];
    } else {
      u := HexOf(d);
    }
  }

  lemma HexOf(d: seq<byte>) returns (u: Unit)
    requires |d| == 4 && !(0xD800 <= Code(d) < 0xE000)
    ensures u.Hex? && OkUnit(u) && UnitText(u) == [92, 117] + d
  {
    hide Code, IsUtf8, Utf8.Encode;
    EncodesUtf8(Code(d));
    u := Hex(d, Utf8.Encode(Code(d)));
  }

  lemma PairOf(high: seq<byte>, low: seq<byte>) returns (u: Unit)
    requires |high| == 4 && |low| == 4 && 0xD800 <= Code(high) < 0xDC00 <= Code(low) < 0xE000
    ensures u.Pair? && OkUnit(u) && UnitText(u) == ([92, 117] + high) + ([92, 117] + low)
  {
    hide Code, IsUtf8, Utf8.Encode;
    var cp := 0x10000 + (Code(high) - 0xD800) * 0x400 + (Code(low) - 0xDC00);
    EncodesUtf8(cp);
    u := Pair(high, low, Utf8.Encode(cp));
  }

  lemma {:induction false} UnitsOf(c: seq<byte>, i: nat, end: nat) returns (us: seq<Unit>)
    requires i <= end < |c| && c[end] == 34 && Decode(c, i, end).Some?
    ensures OkUnits(us) && UnitsText(us) == c[i..end]
    decreases end - i
  {
    hide At, OkUnit, UnitText, UnitBytes, Decode;
    if i == end {
      us := [];
    } else {
      var u := UnitOf(c, i, end);
      UnitDecodes(u, c, i, end);
      var n := i + |UnitText(u)|;
      var more := UnitsOf(c, n, end);
      us := [u] + more;
      assert us[1..] == more;
      StandsThere(c, i, UnitText(u));
      assert c[i..end] == c[i..n] + c[n..end];
      assert u.Last? ==> UnitsText(more) == [] ;
    }
  }

  lemma StandsThere<T>(c: seq<T>, o: nat, r: seq<T>)
    requires At(c, o, r)
    ensures o + |r| <= |c| && c[o..o + |r|] == r
  {
  }

  lemma StringOf(c: seq<byte>, o: nat) returns (us: seq<Unit>)
    requires o < |c| && ParseString(c, o).Some?
    ensures OkString(us) && At(c, o, Quoted(us))
    ensures ParseString(c, o) == Some((UnitsBytes(us), o + |Quoted(us)|))
  {
    hide OkUnits, Open, UnitsText, UnitsBytes, ClosingQuote, Decode;
    var end := ClosingQuote(c, o + 1).value;
    ClosedIsOpen(c, o + 1, end);
    us := UnitsOf(c, o + 1, end);
    assert c[o..end + 1] == [34] + c[o + 1..end] + [34];
    StringParses(us, c, o);
  }

  // ----- Numbers -----

  // A decimal: digits before the point or, behind a minus sign, after it only.
  datatype Decimal = Decimal(minus: bool, whole: seq<byte>, fraction: Option<seq<byte>>, exponent: Option<Exponent>)

  datatype Exponent = Exponent(letter: byte, sign: seq<byte>, digits: seq<byte>)

  predicate AllDigits(s: seq<byte>) {
    forall i :: 0 <= i < |s| ==> 48 <= s[i] <= 57
  }

  predicate OkExponent(e: Exponent) {
    (e.letter == 69 || e.letter == 101) && e.sign in {[], [43], [45]} && e.digits != [] && AllDigits(e.digits)
  }

  predicate OkParts(d: Decimal) {
    && AllDigits(d.whole) && (d.fraction.Some? ==> AllDigits(d.fraction.value))
    && (d.whole == [] ==> d.minus && d.fraction.Some? && d.fraction.value != [])
    && (d.exponent.Some? ==> OkExponent(d.exponent.value))
  }

  function MinusText(d: Decimal): seq<byte> {
    if d.minus then [45] else []
  }

  function FractionText(f: Option<seq<byte>>): seq<byte> {
    if f.Some? then [46] + f.value else []
  }

  function ExponentText(e: Option<Exponent>): seq<byte> {
    if e.Some? then [e.value.letter] + e.value.sign + e.value.digits else []
  }

  function DecimalText(d: Decimal): seq<byte> {
    MinusText(d) + d.whole + FractionText(d.fraction) + ExponentText(d.exponent)
  }

  // One that fits the buffer for numbers.
  predicate OkDecimal(d: Decimal) {
    OkParts(d) && |DecimalText(d)| <= 63
  }

  // A decimal stands at `o`, and no longer one.
  ghost predicate Longest(d: Decimal, c: seq<byte>, o: nat) {
    && At(c, o, DecimalText(d))
    && forall e: Decimal :: OkDecimal(e) && At(c, o, DecimalText(e)) ==> |DecimalText(e)| <= |DecimalText(d)|
  }

  lemma {:induction false} DigitsRun(s: seq<byte>, i: nat)
    requires i <= |s|
    ensures AllDigits(s[i..Digits(s, i)])
    ensures Digits(s, i) < |s| ==> !(48 <= s[Digits(s, i)] <= 57)
    decreases |s| - i
  {
    if i < |s| && IsDigit(s[i]) {
      DigitsRun(s, i + 1);
      assert s[i..Digits(s, i)] == [s[i]] + s[i + 1..Digits(s, i)];
    }
  }

  // Digits that stand somewhere belong to the run, and are all of it in front
  // of something else.
  lemma {:induction false} DigitsCover(t: seq<byte>, s: seq<byte>, i: nat)
    requires AllDigits(t) && At(s, i, t)
    ensures i + |t| <= Digits(s, i)
    ensures i + |t| < |s| && !(48 <= s[i + |t|] <= 57) ==> Digits(s, i) == i + |t|
    ensures i + |t| == |s| ==> Digits(s, i) == i + |t|
  {
    if t != [] {
      assert t == [t[0]] + t[1..];
      AtSplit(s, i, [t[0]], t[1..]);
      AtIndex(s, i, t, 0);
      DigitsCover(t[1..], s, i + 1);
    }
  }

  lemma NumberBytes(d: Decimal)
    requires OkParts(d)
    ensures forall i :: 0 <= i < |DecimalText(d)| ==> IsNumberByte(DecimalText(d)[i])
  {
  }

  // The parts of a decimal in a text, the end of each, and what comes next.
  lemma DecimalParts(d: Decimal, s: seq<byte>) returns (a: nat, b: nat, m: nat, n: nat)
    requires At(s, 0, DecimalText(d))
    ensures a == |MinusText(d)| && b == a + |d.whole| && m == b + |FractionText(d.fraction)|
    ensures n == m + |ExponentText(d.exponent)| == |DecimalText(d)| <= |s|
    ensures At(s, 0, MinusText(d)) && At(s, a, d.whole) && At(s, b, FractionText(d.fraction))
            && At(s, m, ExponentText(d.exponent))
  {
    hide At;
    AtSplit(s, 0, MinusText(d) + d.whole + FractionText(d.fraction), ExponentText(d.exponent));
    AtSplit3(s, 0, MinusText(d), d.whole, FractionText(d.fraction));
    a := |MinusText(d)|;
    b := a + |d.whole|;
    m := b + |FractionText(d.fraction)|;
    n := m + |ExponentText(d.exponent)|;
  }

  // strtod reaches at least as far as any decimal in front of a text.
  lemma StrtodReaches(d: Decimal, s: seq<byte>)
    requires OkParts(d) && At(s, 0, DecimalText(d))
    ensures |DecimalText(d)| <= StrtodLength(s)
  {
    hide At, MantissaEnd, ExponentEnd, ExponentText, FractionText;
    var a, b, m, n := DecimalParts(d, s);
    if d.exponent.Some? {
      ExponentReaches(d.exponent.value, s, m);
      MantissaReaches(d, s, a, b, m);
    } else {
      NoExponent();
      MantissaReaches(d, s, a, b, m);
    }
  }

  lemma NoExponent()
    ensures ExponentText(None) == []
  {
  }

  // The digits and the point end where they should, unless more of them follow.
  lemma MantissaReaches(d: Decimal, s: seq<byte>, a: nat, b: nat, m: nat)
    requires OkParts(d) && At(s, 0, DecimalText(d))
    requires a == |MinusText(d)| && b == a + |d.whole| && m == b + |FractionText(d.fraction)|
    requires At(s, a, d.whole) && At(s, b, FractionText(d.fraction))
    ensures 0 < m <= MantissaEnd(s)
    ensures m < |s| && (s[m] == 69 || s[m] == 101) ==> MantissaEnd(s) == m
  {
    hide At, Digits, AllDigits, DecimalText, OkExponent;
    StartOf(d, s);
    DigitsCover(d.whole, s, a);
    if d.fraction.Some? {
      FractionReaches(d.fraction.value, s, b);
    }
  }

  lemma FractionReaches(f: seq<byte>, s: seq<byte>, b: nat)
    requires AllDigits(f) && At(s, b, [46] + f)
    ensures b < |s| && s[b] == 46 && b + 1 + |f| <= Digits(s, b + 1)
    ensures b + 1 + |f| < |s| && !(48 <= s[b + 1 + |f|] <= 57) ==> Digits(s, b + 1) == b + 1 + |f|
    ensures b + 1 + |f| == |s| ==> Digits(s, b + 1) == b + 1 + |f|
  {
    hide At, Digits, AllDigits;
    AtSplit(s, b, [46], f);
    AtIndex(s, b, [46], 0);
    DigitsCover(f, s, b + 1);
  }

  lemma StartOf(d: Decimal, s: seq<byte>)
    requires OkParts(d) && At(s, 0, DecimalText(d))
    ensures |s| > 0 && (s[0] == 43 || s[0] == 45 <==> d.minus)
  {
  }

  lemma ExponentReaches(e: Exponent, s: seq<byte>, m: nat)
    requires OkExponent(e) && At(s, m, ExponentText(Some(e)))
    ensures m < |s| && (s[m] == 69 || s[m] == 101) && m + |ExponentText(Some(e))| <= ExponentEnd(s, m)
  {
    var d := SignReaches(e, s, m);
    hide At, Digits, AllDigits;
    DigitsCover(e.digits, s, d);
  }

  lemma FirstDigit(t: seq<byte>)
    requires t != [] && AllDigits(t)
    ensures 48 <= t[0] <= 57
  {
  }

  // Where the digits of an exponent begin.
  lemma SignReaches(e: Exponent, s: seq<byte>, m: nat) returns (d: nat)
    requires OkExponent(e) && At(s, m, ExponentText(Some(e)))
    ensures m < |s| && s[m] == e.letter && At(s, d, e.digits) && d + |e.digits| == m + |ExponentText(Some(e))|
    ensures d == if m + 1 < |s| && (s[m + 1] == 43 || s[m + 1] == 45) then m + 2 else m + 1
  {
    hide At, AllDigits;
    AtSplit3(s, m, [e.letter], e.sign, e.digits);
    AtIndex(s, m, [e.letter], 0);
    FirstDigit(e.digits);
    d := m + 1 + |e.sign|;
    if e.sign != [] {
      AtIndex(s, m + 1, e.sign, 0);
    } else {
      AtIndex(s, m + 1, e.digits, 0);
    }
  }

  // And what it converts is one.
  lemma StrtodTakes(s: seq<byte>) returns (d: Decimal)
    requires StrtodLength(s) > 0 && s[0] != 43 && s[0] != 46
    ensures OkParts(d) && DecimalText(d) == s[..StrtodLength(s)]
  {
    hide Digits, ExponentEnd, MantissaEnd, OkExponent, ExponentText, FractionText;
    var a, b, fraction := MantissaTaken(s);
    var m := MantissaEnd(s);
    var exponent := ExponentTaken(s, m);
    d := Decimal(s[0] == 45, s[a..b], fraction, exponent);
    assert s[..m] == s[..a] + s[a..b] + s[b..m];
    assert s[..StrtodLength(s)] == s[..m] + s[m..StrtodLength(s)];
  }

  lemma MantissaTaken(s: seq<byte>) returns (a: nat, b: nat, fraction: Option<seq<byte>>)
    requires s != [] && MantissaEnd(s) > 0 && s[0] != 43 && s[0] != 46
    ensures a <= b <= MantissaEnd(s) && s[..a] == if s[0] == 45 then [45] else []
    ensures AllDigits(s[a..b]) && FractionText(fraction) == s[b..MantissaEnd(s)]
    ensures fraction.Some? ==> AllDigits(fraction.value)
    ensures a == b ==> s[0] == 45 && fraction.Some? && fraction.value != []
  {
    hide Digits;
    a := if s[0] == 45 then 1 else 0;
    b := Digits(s, a);
    var m := MantissaEnd(s);
    DigitsRun(s, a);
    if b < |s| && s[b] == 46 {
      DigitsRun(s, b + 1);
      fraction := Some(s[b + 1..m]);
      assert s[b..m] == [46] + s[b + 1..m];
    } else {
      fraction := None;
    }
    if a == b && a == 0 {
      NoDigitFirst(s);
    }
  }

  lemma NoDigitFirst(s: seq<byte>)
    requires s != [] && Digits(s, 0) == 0
    ensures !(48 <= s[0] <= 57)
  {
  }

  lemma ExponentTaken(s: seq<byte>, m: nat) returns (e: Option<Exponent>)
    requires m <= |s|
    ensures (e.Some? ==> OkExponent(e.value)) && ExponentText(e) == s[m..ExponentEnd(s, m)]
  {
    hide Digits;
    var n := ExponentEnd(s, m);
    e := None;
    if n > m {
      var sign := if s[m + 1] == 43 || s[m + 1] == 45 then [s[m + 1]] else [];
      var from := m + 1 + |sign|;
      DigitsRun(s, from);
      e := Some(Exponent(s[m], sign, s[from..n]));
      assert s[m..n] == [s[m]] + sign + s[from..n];
    }
  }

  // A short decimal belongs to the run of number bytes.
  lemma RunCovers(t: seq<byte>, c: seq<byte>, o: nat)
    requires At(c, o, t) && |t| <= 63 && forall i :: 0 <= i < |t| ==> IsNumberByte(t[i])
    ensures At(NumberRun(c, o, 63), 0, t)
  {
    hide NumberRun, IsNumberByte;
    var run := NumberRun(c, o, 63);
    if t != [] {
      AtIndex(c, o, t, if |run| < |t| then |run| else 0);
    }
    PrefixAt(c, o, run, |t|);
    SameAt(run[..|t|], t, c, o);
    assert run[0..|t|] == run[..|t|];
  }

  lemma RunFrom(c: seq<byte>, o: nat, n: nat)
    requires o <= |c| && n <= |NumberRun(c, o, 63)|
    ensures At(c, o, NumberRun(c, o, 63)[..n])
  {
    hide NumberRun, IsNumberByte;
    PrefixAt(c, o, NumberRun(c, o, 63), n);
  }

  lemma PrefixAt<T>(c: seq<T>, o: nat, r: seq<T>, n: nat)
    requires At(c, o, r) && n <= |r|
    ensures At(c, o, r[..n])
  {
    assert c[o..o + n] == c[o..o + |r|][..n];
  }

  // The parser reads the longest decimal.
  lemma NumberOf(c: seq<byte>, o: nat) returns (d: Decimal)
    requires IsText(c) && o < |c| && (c[o] == 45 || 48 <= c[o] <= 57) && ParseNumber(c, o).Some?
    ensures OkDecimal(d) && Longest(d, c, o)
    ensures ParseNumber(c, o) == Some((DecimalText(d), o + |DecimalText(d)|))
  {
    hide NumberRun, StrtodLength, OkParts, DecimalText;
    var run := NumberRun(c, o, 63);
    var n := StrtodLength(run);
    RunFrom(c, o, n);
    assert run[0] == c[o] by { RunFrom(c, o, |run|); AtIndex(c, o, run[..|run|], 0); }
    d := StrtodTakes(run);
    forall e: Decimal | OkDecimal(e) && At(c, o, DecimalText(e))
      ensures |DecimalText(e)| <= n
    {
      ShorterThanRun(e, c, o);
    }
  }

  lemma ShorterThanRun(e: Decimal, c: seq<byte>, o: nat)
    requires OkDecimal(e) && At(c, o, DecimalText(e))
    ensures |DecimalText(e)| <= StrtodLength(NumberRun(c, o, 63))
  {
    hide NumberRun, StrtodLength, OkParts, DecimalText;
    NumberBytes(e);
    RunCovers(DecimalText(e), c, o);
    StrtodReaches(e, NumberRun(c, o, 63));
  }

  lemma NumberParses(d: Decimal, c: seq<byte>, o: nat)
    requires IsText(c) && OkDecimal(d) && Longest(d, c, o)
    ensures o < |c| && ParseNumber(c, o) == Some((DecimalText(d), o + |DecimalText(d)|))
  {
    hide NumberRun, StrtodLength;
    ShorterThanRun(d, c, o);
    FirstOfDecimal(d);
    AtIndex(c, o, DecimalText(d), 0);
    hide OkParts, DecimalText;
    var e := NumberOf(c, o);
    SameAt(DecimalText(d), DecimalText(e), c, o);
  }

  lemma FirstOfDecimal(d: Decimal)
    requires OkParts(d)
    ensures |DecimalText(d)| > 0 && (DecimalText(d)[0] == 45 || 48 <= DecimalText(d)[0] <= 57)
  {
  }

  lemma SameAt<T>(s: seq<T>, t: seq<T>, c: seq<T>, o: nat)
    requires At(c, o, s) && At(c, o, t) && |s| == |t|
    ensures s == t
  {
  }

  // In front of a byte that is no part of a number it is the only one.
  lemma EndedIsLongest(d: Decimal, c: seq<byte>, o: nat)
    requires At(c, o, DecimalText(d)) && o + |DecimalText(d)| < |c|
    requires !IsNumberByte(c[o + |DecimalText(d)|])
    ensures Longest(d, c, o)
  {
    hide DecimalText, OkParts;
    forall e: Decimal | OkDecimal(e) && At(c, o, DecimalText(e))
      ensures |DecimalText(e)| <= |DecimalText(d)|
    {
      NumberBytes(e);
      if |DecimalText(e)| > |DecimalText(d)| {
        AtIndex(c, o, DecimalText(e), |DecimalText(d)|);
      }
    }
  }
}
