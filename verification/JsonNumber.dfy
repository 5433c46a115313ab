/**
 The value of a number, which the C library turns into text and back. A library
 that keeps its promises is a parameter; the locale's decimal point is one too.
 */
module JsonNumber {
  import opened Bytes
  import opened JsonText
  import opened JsonGrammar
  import opened JsonRoundTrip
  import opened JsonCompare

  const POINT: byte := 46
  const INT_MAX := 0x7fff_ffff
  const INT_MIN := -0x8000_0000

  // The finite numbers that a double can hold, sprintf with %1.15g and with
  // %1.17g, what sscanf and strtod make of a text, and the decimal point of the
  // locale.
  datatype Library = Library(doubles: real -> bool, short: Double -> seq<byte>, long: Double -> seq<byte>,
                             scan: seq<byte> -> Option<Double>, point: byte)

  predicate IsDouble(c: Library, d: Double) {
    d.Finite? ==> c.doubles(d.r)
  }

  function Whole(i: int): Double {
    Finite(i as real)
  }

  function Replaced(t: seq<byte>, from: byte, to: byte): (r: seq<byte>)
    ensures |r| == |t| && forall i :: 0 <= i < |t| ==> r[i] == if t[i] == from then to else t[i]
  {
    seq(|t|, i requires 0 <= i < |t| => if t[i] == from then to else t[i])
  }

  // The text that stands for a number, in the locale.
  function LocalText(c: Library, d: Double): seq<byte> {
    if !d.Finite? then NULL_TEXT
    else if c.scan(c.short(d)) == Some(d) then c.short(d)
    else c.long(d)
  }

  // What is printed; None when the text does not fit the temporary buffer.
  function NumberText(c: Library, d: Double): Option<seq<byte>> {
    var t := LocalText(c, d);
    if |t| > 25 then None else Some(Replaced(t, c.point, POINT))
  }

  // What is read of the text of a number.
  function Value(c: Library, t: seq<byte>): Option<Double> {
    c.scan(Replaced(t, POINT, c.point))
  }

  // The decimal texts are numerals in the locale, 17 digits tell doubles apart,
  // and integers of 32 bits are doubles.
  ghost predicate Faultless(c: Library) {
    && (c.point == POINT || !IsNumberByte(c.point)) && c.point !in NULL_TEXT
    && (forall i :: INT_MIN <= i <= INT_MAX ==> IsDouble(c, Whole(i)))
    && forall d: Double :: d.Finite? && IsDouble(c, d) ==>
         && LocalNumeral(c, c.short(d)) && LocalNumeral(c, c.long(d)) && c.scan(c.long(d)) == Some(d)
  }

  predicate LocalNumeral(c: Library, t: seq<byte>) {
    IsNumeral(Replaced(t, c.point, POINT)) && (c.point == POINT || POINT !in t)
  }

  // Replacing the point twice gives the text of the locale again.
  lemma ReplacedTwice(c: Library, t: seq<byte>)
    requires c.point == POINT || POINT !in t
    ensures Replaced(Replaced(t, c.point, POINT), POINT, c.point) == t
  {
  }

  // A finite number has a text that is read back as the number. No other has
  // one: its text is "null", which is read as the null value.
  lemma ValueRoundTrip(c: Library, d: Double)
    requires Faultless(c) && IsDouble(c, d)
    ensures NumberText(c, d).Some?
    ensures var t := NumberText(c, d).value;
      if d.Finite? then IsNumeral(t) && Value(c, t) == Some(d)
      else t == NULL_TEXT && !IsNumeral(t)
  {
    ReplacedTwice(c, LocalText(c, d));
    if d.Finite? {
      assert LocalNumeral(c, LocalText(c, d));
    } else {
      assert Replaced(NULL_TEXT, c.point, POINT) == NULL_TEXT;
    }
  }

  // The text of 15 digits is printed whenever it is read back as the number, and
  // otherwise the one of 17.
  lemma FifteenDigits(c: Library, d: Double)
    requires Faultless(c) && d.Finite? && IsDouble(c, d)
    ensures var t, u := Replaced(c.short(d), c.point, 46), Replaced(c.long(d), c.point, 46);
      NumberText(c, d) == Some(if Value(c, t) == Some(d) then t else u)
  {
    ReplacedTwice(c, c.short(d));
  }

  // Whatever the library makes of it, a text of more than 25 bytes is refused,
  // and what is not finite is null.
  lemma TextLength(c: Library, d: Double)
    ensures NumberText(c, d).None? ==> d.Finite? && (|c.short(d)| > 25 || |c.long(d)| > 25)
    ensures NumberText(c, d).Some? ==> |NumberText(c, d).value| <= 25
    ensures !d.Finite? && c.point !in [110, 117, 108] ==> NumberText(c, d) == Some([110, 117, 108, 108])
  {
    if !d.Finite? && c.point !in [110, 117, 108] {
      assert Replaced(NULL_TEXT, c.point, POINT) == [110, 117, 108, 108];
    }
  }

  // Wherever it stands in front of something else, the parser stops behind it
  // with the same number.
  lemma PrintedNumber(c: Library, d: Double, content: seq<byte>, o: nat)
    requires Faultless(c) && d.Finite? && IsDouble(c, d) && IsText(content)
    requires var t := NumberText(c, d); t.Some? ==>
      At(content, o, t.value) && o + |t.value| < |content| && !IsNumberByte(content[o + |t.value|])
    ensures o < |content| && ParseNumber(content, o).Some?
    ensures var (t, end) := ParseNumber(content, o).value; Value(c, t) == Some(d) && end == o + |t|
  {
    hide Faultless, NumberText, Value, ParseNumber, StrtodLength, At;
    ValueRoundTrip(c, d);
    NumberRoundTrip(NumberText(c, d).value, content, o);
  }

  // print_number up to the call of ensure, and its last loop.
  method FormatNumber(c: Library, d: Double) returns (ok: bool, text: seq<byte>)
    ensures ok <==> NumberText(c, d).Some?
    ensures ok ==> text == NumberText(c, d).value
  {
    var number: seq<byte>;
    if !d.Finite? {
      number := NULL_TEXT;
    } else {
      number := c.short(d);
      var test := c.scan(number);
      if test == None || test.value != d {
        number := c.long(d);
      }
    }
    text := [];
    if |number| > 25 {
      return false, text;
    }
    for i := 0 to |number|
      invariant text == Replaced(number, c.point, POINT)[..i]
    {
      text := text + [if number[i] == c.point then POINT else number[i]];
    }
    ok := true;
  }

  // ----- The integer beside the value -----

  function Truncated(r: real): int {
    if r >= 0.0 then r.Floor else -((-r).Floor)
  }

  // valueint; the conversion of NaN is not defined in C.
  function ValueInt(d: Double): Option<int> {
    match d
    case NaN => None
    case Infinite(positive) => Some(if positive then INT_MAX else INT_MIN)
    case Finite(r) =>
      if r >= INT_MAX as real then Some(INT_MAX)
      else if r <= INT_MIN as real then Some(INT_MIN)
      else Some(Truncated(r))
  }

  lemma FloorOf(r: real, i: int)
    requires i as real <= r < i as real + 1.0
    ensures r.Floor == i
  {
  }

  lemma TruncatedNear(r: real)
    ensures if r >= 0.0 then Truncated(r) as real <= r < Truncated(r) as real + 1.0
            else Truncated(r) as real - 1.0 < r <= Truncated(r) as real <= 0.0
  {
    var f := if r >= 0.0 then r.Floor else (-r).Floor;
    assert f as real <= (if r >= 0.0 then r else -r) < f as real + 1.0;
    assert (-f) as real == -(f as real);
  }

  lemma TruncatedWhole(r: real)
    ensures Truncated(r) as real == r <==> r == r.Floor as real
  {
    TruncatedNear(r);
    var t := Truncated(r);
    if t as real == r {
      FloorOf(r, t);
    }
    if r == r.Floor as real && r < 0.0 {
      assert (-r.Floor) as real == -r;
      FloorOf(-r, -r.Floor);
    }
  }

  // The integer is the nearest one toward zero within 32 bits, and the value
  // itself exactly when that is such an integer.
  lemma ValueIntExactly(r: real)
    ensures var i := ValueInt(Finite(r)).value;
      && -0x8000_0000 <= i <= 0x7fff_ffff
      && (i as real == r <==> r == r.Floor as real && -2147483648.0 <= r <= 2147483647.0)
      && (0.0 <= r <= 2147483647.0 ==> i as real <= r < i as real + 1.0)
      && (-2147483648.0 <= r < 0.0 ==> i as real - 1.0 < r <= i as real)
    ensures ValueInt(Infinite(true)) == Some(0x7fff_ffff) && ValueInt(Infinite(false)) == Some(-0x8000_0000)
  {
    hide Truncated;
    TruncatedNear(r);
    TruncatedWhole(r);
    FloorOf(INT_MAX as real, INT_MAX);
    FloorOf(INT_MIN as real, INT_MIN);
  }

  lemma ValueIntMonotone(r: real, s: real)
    requires r <= s
    ensures ValueInt(Finite(r)).value <= ValueInt(Finite(s)).value
  {
    ValueIntExactly(r);
    ValueIntExactly(s);
  }

  // An integer of 32 bits survives printing and parsing.
  lemma IntegerRoundTrip(c: Library, i: int)
    requires Faultless(c) && INT_MIN <= i <= INT_MAX
    ensures var t := NumberText(c, Whole(i));
      t.Some? && Value(c, t.value).Some? && ValueInt(Value(c, t.value).value) == Some(i)
  {
    ValueRoundTrip(c, Whole(i));
    ValueIntExactly(i as real);
    assert (i as real).Floor == i;
  }
}
