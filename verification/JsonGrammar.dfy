/**
 The parser as functions on positions of a text. The text is a C string with
 its terminator: its last byte is 0. A result is the value and the offset after
 it, or None for a parse error.
 */
module JsonGrammar {
  import opened Bytes
  import opened JsonText
  import Utf8

  const NESTING_LIMIT := 1000

  ghost predicate IsText(c: seq<byte>) {
    |c| > 0 && c[|c| - 1] == 0
  }

  // buffer_skip_whitespace: every byte up to the space counts as white, the
  // terminator included, but the offset never leaves the text.
  function Skip(c: seq<byte>, o: nat): (r: nat)
    requires |c| > 0 && o <= |c|
    ensures r < |c| && (o < |c| ==> o <= r)
    ensures o < |c| && c[o] > 32 ==> r == o
    decreases |c| - o
  {
    if o == |c| then o - 1
    else if c[o] <= 32 then Skip(c, o + 1)
    else o
  }

  // ----- Strings -----

  function HexValue(b: byte): (v: int)
    ensures -1 <= v < 16
  {
    if 48 <= b <= 57 then b - 48
    else if 65 <= b <= 70 then 10 + b - 65
    else if 97 <= b <= 102 then 10 + b - 97
    else -1
  }

  // Four hexadecimal digits; 0 when one of them is not a digit.
  function Hex4(c: seq<byte>, i: nat): (v: nat)
    requires i + 4 <= |c|
    ensures v <= 0xFFFF
  {
    var h0, h1, h2, h3 := HexValue(c[i]), HexValue(c[i + 1]), HexValue(c[i + 2]), HexValue(c[i + 3]);
    if h0 < 0 || h1 < 0 || h2 < 0 || h3 < 0 then 0
    else h0 * 0x1000 + h1 * 0x100 + h2 * 0x10 + h3
  }

  // The code point of the escape at `i` and the number of bytes it spans.
  function Utf16At(c: seq<byte>, i: nat, end: nat): (r: Option<(nat, nat)>)
    requires i <= end <= |c|
    ensures r.Some? ==> r.value.0 <= 0x10FFFF && (r.value.1 == 6 || r.value.1 == 12) && i + r.value.1 <= end
  {
    if end - i < 6 then None
    else
      var first := Hex4(c, i + 2);
      if 0xDC00 <= first <= 0xDFFF then None
      else if 0xD800 <= first <= 0xDBFF then
        if end - (i + 6) < 6 || c[i + 6] != BACKSLASH || c[i + 7] != 117 then None
        else
          var second := Hex4(c, i + 8);
          if second < 0xDC00 || second > 0xDFFF then None
          else Some((0x10000 + (first % 0x400) * 0x400 + second % 0x400, 12))
      else Some((first, 6))
  }

  // The position of the quote that closes a string.
  function ClosingQuote(c: seq<byte>, i: nat): (r: Option<nat>)
    ensures r.Some? ==> i <= r.value < |c| && c[r.value] == QUOTE
    decreases |c| - i
  {
    if i >= |c| then None
    else if c[i] == QUOTE then Some(i)
    else if c[i] == BACKSLASH then (if i + 1 >= |c| then None else ClosingQuote(c, i + 2))
    else ClosingQuote(c, i + 1)
  }

  // The byte that a two-character escape stands for.
  function Unescape(b: byte): Option<byte> {
    if b == 98 then Some(8)
    else if b == 102 then Some(12)
    else if b == 110 then Some(10)
    else if b == 114 then Some(13)
    else if b == 116 then Some(9)
    else if b == 34 || b == 92 || b == 47 then Some(b)
    else None
  }

  function Prepend<T>(xs: seq<T>, r: Option<seq<T>>): Option<seq<T>> {
    if r.None? then None else Some(xs + r.value)
  }

  lemma PrependTwice<T>(a: seq<T>, b: seq<T>, r: Option<seq<T>>)
    ensures Prepend(a, Prepend(b, r)) == Prepend(a + b, r)
  {
    if r.Some? {
      Assoc(a, b, r.value);
    }
  }

  lemma PrependNothing<T>(r: Option<seq<T>>)
    ensures Prepend([], r) == r
  {
    if r.Some? {
      assert [] + r.value == r.value;
    }
  }

  function Decode(c: seq<byte>, i: nat, end: nat): Option<seq<byte>>
    requires end < |c|
    decreases end - i
  {
    if i >= end then Some([])
    else if c[i] != BACKSLASH then Prepend([c[i]], Decode(c, i + 1, end))
    else if c[i + 1] == 117 then
      var u := Utf16At(c, i, end);
      if u.None? then None else Prepend(Utf8.Encode(u.value.0), Decode(c, i + u.value.1, end))
    else
      var e := Unescape(c[i + 1]);
      if e.None? then None else Prepend([e.value], Decode(c, i + 2, end))
  }

  function ParseString(c: seq<byte>, o: nat): (r: Option<(seq<byte>, nat)>)
    requires o < |c|
    ensures r.Some? ==> o + 1 < r.value.1 <= |c|
    ensures r.Some? && IsText(c) ==> r.value.1 < |c|
  {
    if c[o] != QUOTE then None
    else
      var end := ClosingQuote(c, o + 1);
      if end.None? then None
      else
        var s := Decode(c, o + 1, end.value);
        if s.None? then None else Some((s.value, end.value + 1))
  }

  // ----- Numbers -----

  predicate IsDigit(b: byte) {
    48 <= b <= 57
  }

  predicate IsNumberByte(b: byte) {
    IsDigit(b) || b == 43 || b == 45 || b == 101 || b == 69 || b == 46
  }

  // The bytes that parse_number copies: at most 63, all of the number alphabet.
  function NumberRun(c: seq<byte>, o: nat, room: nat): (r: seq<byte>)
    requires o <= |c|
    ensures At(c, o, r) && |r| <= room
    ensures IsText(c) && o < |c| ==> o + |r| < |c|
    ensures forall i :: 0 <= i < |r| ==> IsNumberByte(r[i])
    ensures |r| < room && o + |r| < |c| ==> !IsNumberByte(c[o + |r|])
    decreases room
  {
    if room == 0 || o == |c| || !IsNumberByte(c[o]) then []
    else
      var rest := NumberRun(c, o + 1, room - 1);
      assert c[o..o + 1 + |rest|] == [c[o]] + c[o + 1..o + 1 + |rest|];
      [c[o]] + rest
  }

  function Digits(s: seq<byte>, i: nat): (j: nat)
    requires i <= |s|
    ensures i <= j <= |s|
    decreases |s| - i
  {
    if i < |s| && IsDigit(s[i]) then Digits(s, i + 1) else i
  }

  // The end of an optional sign and digits with an optional point, or 0 when
  // there is no digit.
  function MantissaEnd(s: seq<byte>): (n: nat)
    ensures n <= |s|
  {
    var start := if |s| > 0 && (s[0] == 43 || s[0] == 45) then 1 else 0;
    var whole := Digits(s, start);
    var point := if whole < |s| && s[whole] == 46 then Digits(s, whole + 1) else whole;
    if whole == start && point <= whole + 1 then 0 else point
  }

  // The end of the exponent at `m` if it is complete.
  function ExponentEnd(s: seq<byte>, m: nat): (n: nat)
    requires m <= |s|
    ensures m <= n <= |s|
  {
    if m < |s| && (s[m] == 101 || s[m] == 69) then
      var sign := if m + 1 < |s| && (s[m + 1] == 43 || s[m + 1] == 45) then m + 2 else m + 1;
      var exponent := Digits(s, sign);
      if exponent > sign then exponent else m
    else m
  }

  // How much of a text over the number alphabet strtod converts.
  function StrtodLength(s: seq<byte>): (n: nat)
    ensures n <= |s|
  {
    var m := MantissaEnd(s);
    if m == 0 then 0 else ExponentEnd(s, m)
  }

  function ParseNumber(c: seq<byte>, o: nat): (r: Option<(seq<byte>, nat)>)
    requires IsText(c) && o < |c|
    ensures r.Some? ==> o < r.value.1 < |c|
  {
    var run := NumberRun(c, o, 63);
    var n := StrtodLength(run);
    if n == 0 then None else Some((run[..n], o + n))
  }

  // ----- Values -----

  function ParseKeyword(c: seq<byte>, o: nat): (r: Option<(Json, nat)>)
    requires IsText(c) && o < |c|
    ensures r.Some? ==> o < r.value.1 < |c|
  {
    if At(c, o, NULL_TEXT) then AtIndex(c, o, NULL_TEXT, 3); Some((Null, o + 4))
    else if At(c, o, FALSE_TEXT) then AtIndex(c, o, FALSE_TEXT, 4); Some((False, o + 5))
    else if At(c, o, TRUE_TEXT) then AtIndex(c, o, TRUE_TEXT, 3); Some((True, o + 4))
    else None
  }

  function ParseValue(c: seq<byte>, o: nat, depth: nat): (r: Option<(Json, nat)>)
    requires IsText(c) && o < |c|
    ensures r.Some? ==> o < r.value.1 < |c|
    decreases |c| - o, 0
  {
    if ParseKeyword(c, o).Some? then ParseKeyword(c, o)
    else if c[o] == QUOTE then
      var r := ParseString(c, o);
      if r.None? then None else Some((String(r.value.0), r.value.1))
    else if c[o] == 45 || IsDigit(c[o]) then
      var r := ParseNumber(c, o);
      if r.None? then None else Some((Number(r.value.0), r.value.1))
    else if c[o] == OPEN_ARRAY then
      var r := ParseArray(c, o, depth);
      if r.None? then None else Some((Array(r.value.0), r.value.1))
    else if c[o] == OPEN_OBJECT then
      var r := ParseObject(c, o, depth);
      if r.None? then None else Some((Object(r.value.0), r.value.1))
    else None
  }

  function ParseArray(c: seq<byte>, o: nat, depth: nat): (r: Option<(seq<Json>, nat)>)
    requires IsText(c) && o < |c| && c[o] == OPEN_ARRAY
    ensures r.Some? ==> o < r.value.1 < |c|
    decreases |c| - o - 1, 2
  {
    var first := Skip(c, o + 1);
    if depth >= NESTING_LIMIT then None
    else if c[first] == CLOSE_ARRAY then Some(([], first + 1))
    else
      var r := ParseItems(c, first - 1, depth + 1);
      if r.None? then None else Some((r.value.0, r.value.1 + 1))
  }

  function ParseObject(c: seq<byte>, o: nat, depth: nat): (r: Option<(seq<Member>, nat)>)
    requires IsText(c) && o < |c| && c[o] == OPEN_OBJECT
    ensures r.Some? ==> o < r.value.1 < |c|
    decreases |c| - o - 1, 3
  {
    var first := Skip(c, o + 1);
    if depth >= NESTING_LIMIT then None
    else if c[first] == CLOSE_OBJECT then Some(([], first + 1))
    else
      var r := ParseMembers(c, first - 1, depth + 1);
      if r.None? then None else Some((r.value.0, r.value.1 + 1))
  }

  // The items after the separator at `o`, up to the closing bracket.
  function ParseItems(c: seq<byte>, o: nat, depth: nat): (r: Option<(seq<Json>, nat)>)
    requires IsText(c) && o + 1 < |c|
    ensures r.Some? ==> o < r.value.1 && r.value.1 + 1 < |c|
    decreases |c| - o - 1, 1
  {
    var v := ParseValue(c, Skip(c, o + 1), depth);
    if v.None? then None
    else
      var next := Skip(c, v.value.1);
      if c[next] == COMMA then
        var r := ParseItems(c, next, depth);
        if r.None? then None else Some(([v.value.0] + r.value.0, r.value.1))
      else if c[next] == CLOSE_ARRAY then Some(([v.value.0], next))
      else None
  }

  // The name and value after the separator at `o`.
  function ParseMember(c: seq<byte>, o: nat, depth: nat): (r: Option<(Member, nat)>)
    requires IsText(c) && o + 1 < |c|
    ensures r.Some? ==> o + 1 < r.value.1 < |c|
    decreases |c| - o - 1, 1
  {
    var k := ParseString(c, Skip(c, o + 1));
    if k.None? then None
    else
      var colon := Skip(c, k.value.1);
      if c[colon] != COLON then None
      else
        var v := ParseValue(c, Skip(c, colon + 1), depth);
        if v.None? then None else Some((Member(k.value.0, v.value.0), v.value.1))
  }

  function ParseMembers(c: seq<byte>, o: nat, depth: nat): (r: Option<(seq<Member>, nat)>)
    requires IsText(c) && o + 1 < |c|
    ensures r.Some? ==> o < r.value.1 && r.value.1 + 1 < |c|
    decreases |c| - o - 1, 2
  {
    var m := ParseMember(c, o, depth);
    if m.None? then None
    else
      var next := Skip(c, m.value.1);
      if c[next] == COMMA then
        var r := ParseMembers(c, next, depth);
        if r.None? then None else Some(([m.value.0] + r.value.0, r.value.1))
      else if c[next] == CLOSE_OBJECT then Some(([m.value.0], next))
      else None
  }

  // cJSON_ParseWithOpts on the C string `text`.
  function Parse(text: seq<byte>, requireEnd: bool): Option<Json> {
    var c := Terminated(text);
    var r := ParseValue(c, Skip(c, 0), 0);
    if r.None? then None
    else if requireEnd && c[Skip(c, r.value.1)] != 0 then None
    else Some(r.value.0)
  }
}
