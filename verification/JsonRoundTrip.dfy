/**
 Parsing undoes printing: wherever the text of a value stands, formatted or
 not, the parser returns that value and stops right after it.
 */
module JsonRoundTrip {
  import opened Bytes
  import opened JsonText
  import opened JsonGrammar
  import opened JsonStrings

  // A decimal text as print_number makes them (at most 25 bytes) that strtod
  // converts as a whole. The text "null" that stands for NaN is not one.
  predicate IsNumeral(t: seq<byte>) {
    && 0 < |t| <= 25
    && (t[0] == 45 || IsDigit(t[0]))
    && (forall i :: 0 <= i < |t| ==> IsNumberByte(t[i]))
    && StrtodLength(t) == |t|
  }

  // The values that JSON text can carry: C strings, finite numbers, no raw text.
  predicate Faithful(v: Json) {
    match v
    case Number(t) => IsNumeral(t)
    case Raw(_) => false
    case String(s) => NulFree(s)
    case Array(items) => forall i :: 0 <= i < |items| ==> Faithful(items[i])
    case Object(members) =>
      forall i :: 0 <= i < |members| ==> NulFree(members[i].key) && Faithful(members[i].value)
    case _ => true
  }

  // The nesting depth of a value.
  function Height(v: Json): nat
    decreases v, 1
  {
    match v
    case Array(items) => 1 + HeightOfItems(items)
    case Object(members) => 1 + HeightOfMembers(members)
    case _ => 0
  }

  function HeightOfItems(items: seq<Json>): nat
    decreases items, 0
  {
    if items == [] then 0 else Max(Height(items[0]), HeightOfItems(items[1..]))
  }

  function HeightOfMembers(members: seq<Member>): nat
    decreases members, 0
  {
    if members == [] then 0 else Max(Height(members[0].value), HeightOfMembers(members[1..]))
  }

  // ----- Numbers -----

  lemma {:induction false} RunStops(t: seq<byte>, c: seq<byte>, o: nat, room: nat)
    requires At(c, o, t) && |t| <= room && o + |t| < |c|
    requires forall i :: 0 <= i < |t| ==> IsNumberByte(t[i])
    requires !IsNumberByte(c[o + |t|])
    ensures NumberRun(c, o, room) == t
  {
    if t != [] {
      assert [t[0]] + t[1..] == t;
      AtSplit(c, o, [t[0]], t[1..]);
      AtIndex(c, o, t, 0);
      RunStops(t[1..], c, o + 1, room - 1);
    }
  }

  lemma NumberRoundTrip(t: seq<byte>, c: seq<byte>, o: nat)
    requires IsText(c) && IsNumeral(t) && At(c, o, t) && o + |t| < |c| && !IsNumberByte(c[o + |t|])
    ensures ParseNumber(c, o) == Some((t, o + |t|))
  {
    hide NumberRun;
    hide StrtodLength;
    hide At;
    RunStops(t, c, o, 63);
    assert t[..|t|] == t;
  }

  // ----- First bytes -----

  predicate Starts(b: byte) {
    b == QUOTE || b == 45 || IsDigit(b) || b == OPEN_ARRAY || b == OPEN_OBJECT || b == 110 || b == 102 || b == 116
  }

  // No text of a value is empty or starts with white space or a bracket's end.
  lemma FirstByte(v: Json, fmt: bool, depth: nat)
    requires Faithful(v)
    ensures |Render(v, fmt, depth)| > 0 && Starts(Render(v, fmt, depth)[0])
  {
    match v {
      case Array(items) =>
        assert Render(v, fmt, depth)[0] == OPEN_ARRAY;
      case Object(members) =>
        assert Render(v, fmt, depth)[0] == OPEN_OBJECT;
      case _ =>
    }
  }

  lemma NotKeyword(c: seq<byte>, o: nat)
    requires IsText(c) && o < |c| && c[o] != 110 && c[o] != 102 && c[o] != 116
    ensures ParseKeyword(c, o).None?
  {
    if At(c, o, NULL_TEXT) { AtIndex(c, o, NULL_TEXT, 0); }
    if At(c, o, FALSE_TEXT) { AtIndex(c, o, FALSE_TEXT, 0); }
    if At(c, o, TRUE_TEXT) { AtIndex(c, o, TRUE_TEXT, 0); }
  }

  // White space made of tabs, spaces and line feeds is skipped.
  lemma {:induction false} SkipExtra(fmt: bool, b: byte, n: nat, c: seq<byte>, o: nat)
    requires b <= 32 && At(c, o, Extra(fmt, b, n)) && o + |Extra(fmt, b, n)| < |c|
    ensures Skip(c, o) == Skip(c, o + |Extra(fmt, b, n)|)
  {
    if fmt && n > 0 {
      AtIndex(c, o, Extra(fmt, b, n), 0);
      assert Extra(fmt, b, n) == [b] + Extra(fmt, b, n - 1);
      AtSplit(c, o, [b], Extra(fmt, b, n - 1));
      SkipExtra(fmt, b, n - 1, c, o + 1);
    }
  }

  // ----- Values -----

  // Nesting beyond the limit is refused, and nothing else is.
  function Guard<T>(ok: bool, r: T): Option<T> {
    if ok then Some(r) else None
  }

  lemma {:induction false} ValueRoundTrip(v: Json, fmt: bool, d: nat, c: seq<byte>, o: nat, depth: nat)
    requires IsText(c) && Faithful(v) && depth <= NESTING_LIMIT
    requires At(c, o, Render(v, fmt, d))
    requires var e := o + |Render(v, fmt, d)|; e < |c| && !IsNumberByte(c[e])
    ensures ParseValue(c, o, depth) == Guard(depth + Height(v) <= NESTING_LIMIT, (v, o + |Render(v, fmt, d)|))
    decreases v, 1
  {
    hide ParseArray;
    hide ParseObject;
    hide ParseString;
    hide ParseNumber;
    hide RenderItems;
    hide RenderMembers;
    hide RenderString;
    hide StrtodLength;
    hide Skip;
    FirstByte(v, fmt, d);
    AtIndex(c, o, Render(v, fmt, d), 0);
    match v {
      case Null => KeywordRoundTrip(v, fmt, d, c, o, depth);
      case False => KeywordRoundTrip(v, fmt, d, c, o, depth);
      case True => KeywordRoundTrip(v, fmt, d, c, o, depth);
      case Number(t) =>
        NotKeyword(c, o);
        NumberRoundTrip(t, c, o);
      case String(s) =>
        NotKeyword(c, o);
        StringRoundTrip(s, c, o);
      case Array(items) =>
        NotKeyword(c, o);
        ArrayRoundTrip(items, fmt, d, c, o, depth);
      case Object(members) =>
        NotKeyword(c, o);
        ObjectRoundTrip(members, fmt, d, c, o, depth);
    }
  }

  lemma KeywordRoundTrip(v: Json, fmt: bool, d: nat, c: seq<byte>, o: nat, depth: nat)
    requires IsText(c) && (v.Null? || v.False? || v.True?) && depth <= NESTING_LIMIT
    requires At(c, o, Render(v, fmt, d)) && o + |Render(v, fmt, d)| < |c|
    ensures ParseValue(c, o, depth) == Some((v, o + |Render(v, fmt, d)|))
  {
    hide ParseArray;
    hide ParseObject;
    hide ParseString;
    hide ParseNumber;
    AtIndex(c, o, Render(v, fmt, d), 0);
    if v.True? {
      assert !At(c, o, NULL_TEXT) && !At(c, o, FALSE_TEXT);
    }
  }

  lemma {:induction false} ArrayRoundTrip(items: seq<Json>, fmt: bool, d: nat, c: seq<byte>, o: nat, depth: nat)
    requires IsText(c) && Faithful(Array(items)) && depth <= NESTING_LIMIT
    requires o < |c| && c[o] == OPEN_ARRAY
    requires At(c, o, Render(Array(items), fmt, d)) && o + |Render(Array(items), fmt, d)| < |c|
    ensures ParseArray(c, o, depth)
      == Guard(depth + Height(Array(items)) <= NESTING_LIMIT, (items, o + |Render(Array(items), fmt, d)|))
    decreases items, 2
  {
    hide At;
    hide Skip;
    hide ParseArray;
    hide ParseItems;
    hide Render;
    var close := SplitArray(items, fmt, d, c, o);
    if items != [] {
      ItemsStart(items, fmt, d + 1);
      AtIndex(c, o + 1, RenderItems(items, fmt, d + 1), 0);
      if depth < NESTING_LIMIT {
        ItemsRoundTrip(items, fmt, d + 1, c, o, o + 1, depth + 1);
      }
    }
    ClosedArray(c, o, depth, items, close, depth + 1 + HeightOfItems(items) <= NESTING_LIMIT);
  }

  lemma SplitArray(items: seq<Json>, fmt: bool, d: nat, c: seq<byte>, o: nat) returns (close: nat)
    requires At(c, o, Render(Array(items), fmt, d)) && o + |Render(Array(items), fmt, d)| < |c|
    ensures At(c, o + 1, RenderItems(items, fmt, d + 1)) && close == o + 1 + |RenderItems(items, fmt, d + 1)|
    ensures c[close] == CLOSE_ARRAY && close + 1 == o + |Render(Array(items), fmt, d)|
  {
    hide At;
    hide RenderItems;
    var body := RenderItems(items, fmt, d + 1);
    AtSplit3(c, o, [OPEN_ARRAY], body, [CLOSE_ARRAY]);
    close := o + 1 + |body|;
    AtIndex(c, close, [CLOSE_ARRAY], 0);
  }

  lemma ItemsStart(items: seq<Json>, fmt: bool, d: nat)
    requires items != [] && Faithful(items[0])
    ensures |RenderItems(items, fmt, d)| > 0 && Starts(RenderItems(items, fmt, d)[0])
  {
    FirstByte(items[0], fmt, d);
  }

  lemma ClosedArray(c: seq<byte>, o: nat, depth: nat, items: seq<Json>, close: nat, ok: bool)
    requires IsText(c) && o < |c| && c[o] == OPEN_ARRAY && close < |c|
    requires if items == [] then ok == (depth < NESTING_LIMIT) else ok ==> depth < NESTING_LIMIT
    requires var first := Skip(c, o + 1);
      if items == [] then first == close && c[close] == CLOSE_ARRAY
      else c[first] != CLOSE_ARRAY &&
           (depth < NESTING_LIMIT ==> ParseItems(c, first - 1, depth + 1) == Guard(ok, (items, close)))
    ensures ParseArray(c, o, depth) == Guard(ok, (items, close + 1))
  {
  }

  lemma LastItem(c: seq<byte>, o: nat, depth: nat, v: Json, e: nat, ok: bool)
    requires IsText(c) && o + 1 < |c| && ParseValue(c, Skip(c, o + 1), depth) == Guard(ok, (v, e))
    requires e < |c| && c[e] == CLOSE_ARRAY
    ensures ParseItems(c, o, depth) == Guard(ok, ([v], e))
  {
  }

  lemma MoreItems(c: seq<byte>, o: nat, depth: nat, v: Json, e: nat, ok: bool, rest: seq<Json>, r: nat, ok': bool)
    requires IsText(c) && o + 1 < |c| && ParseValue(c, Skip(c, o + 1), depth) == Guard(ok, (v, e))
    requires e + 1 < |c| && c[e] == COMMA && ParseItems(c, e, depth) == Guard(ok', (rest, r))
    ensures ParseItems(c, o, depth) == Guard(ok && ok', ([v] + rest, r))
  {
  }

  // Items that stand at `s` and before a closing bracket, after a separator at
  // `o` that is followed by nothing but white space.
  lemma {:induction false} ItemsRoundTrip(items: seq<Json>, fmt: bool, d: nat, c: seq<byte>, o: nat, s: nat, depth: nat)
    requires IsText(c) && items != [] && (forall i :: 0 <= i < |items| ==> Faithful(items[i]))
    requires depth <= NESTING_LIMIT
    requires At(c, s, RenderItems(items, fmt, d))
    requires var e := s + |RenderItems(items, fmt, d)|; e + 1 < |c| && c[e] == CLOSE_ARRAY
    requires o + 1 < |c| && Skip(c, o + 1) == s
    ensures ParseItems(c, o, depth)
      == Guard(depth + HeightOfItems(items) <= NESTING_LIMIT, (items, s + |RenderItems(items, fmt, d)|))
    decreases items, 0
  {
    hide At;
    hide Skip;
    hide ParseItems;
    hide ParseValue;
    hide Render;
    var ok := depth + Height(items[0]) <= NESTING_LIMIT;
    if |items| == 1 {
      ValueRoundTrip(items[0], fmt, d, c, s, depth);
      LastItem(c, o, depth, items[0], s + |Render(items[0], fmt, d)|, ok);
      assert items == [items[0]];
    } else {
      var comma, t := SplitItems(items, fmt, d, c, s);
      ValueRoundTrip(items[0], fmt, d, c, s, depth);
      ItemsRoundTrip(items[1..], fmt, d, c, comma, t, depth);
      MoreItems(c, o, depth, items[0], comma, ok, items[1..], t + |RenderItems(items[1..], fmt, d)|,
                depth + HeightOfItems(items[1..]) <= NESTING_LIMIT);
      assert items == [items[0]] + items[1..];
    }
  }

  // Where the comma and the remaining items stand.
  lemma SplitItems(items: seq<Json>, fmt: bool, d: nat, c: seq<byte>, s: nat) returns (comma: nat, t: nat)
    requires |items| > 1 && Faithful(items[1]) && At(c, s, RenderItems(items, fmt, d))
    ensures comma == s + |Render(items[0], fmt, d)| && At(c, s, Render(items[0], fmt, d))
    ensures comma < t && c[comma] == COMMA && t < |c| && Skip(c, comma + 1) == t
    ensures At(c, t, RenderItems(items[1..], fmt, d))
    ensures t + |RenderItems(items[1..], fmt, d)| == s + |RenderItems(items, fmt, d)|
  {
    hide At;
    hide Skip;
    hide Render;
    var head, space, rest := Render(items[0], fmt, d), Extra(fmt, SPACE, 1), RenderItems(items[1..], fmt, d);
    AtSplit3(c, s, head, [COMMA] + space, rest);
    comma, t := s + |head|, s + |head| + 1 + |space|;
    AtSplit(c, comma, [COMMA], space);
    AtIndex(c, comma, [COMMA], 0);
    ItemsStart(items[1..], fmt, d);
    AtIndex(c, t, rest, 0);
    SkipExtra(fmt, SPACE, 1, c, comma + 1);
  }

  // ----- Objects -----

  // A pair that stands at `s`, after a separator at `o` that is followed by
  // nothing but white space.
  lemma {:induction false} PairRoundTrip(m: Member, fmt: bool, d: nat, c: seq<byte>, o: nat, s: nat, depth: nat)
    requires IsText(c) && NulFree(m.key) && Faithful(m.value)
    requires depth <= NESTING_LIMIT
    requires At(c, s, RenderPair(m, fmt, d))
    requires var e := s + |RenderPair(m, fmt, d)|; e < |c| && !IsNumberByte(c[e])
    requires o + 1 < |c| && Skip(c, o + 1) == Skip(c, s)
    ensures ParseMember(c, o, depth)
      == Guard(depth + Height(m.value) <= NESTING_LIMIT, (m, s + |RenderPair(m, fmt, d)|))
    decreases m, 2
  {
    hide At;
    hide Skip;
    hide ParseValue;
    hide ParseString;
    hide Render;
    var colon, t := SplitPair(m, fmt, d, c, s);
    ValueRoundTrip(m.value, fmt, d, c, t, depth);
  }

  // Where the parts of a pair stand.
  lemma PairParts(m: Member, fmt: bool, d: nat, c: seq<byte>, s: nat)
    requires At(c, s, RenderPair(m, fmt, d))
    ensures var tabs, key, gap := Extra(fmt, TAB, d), RenderString(m.key), Extra(fmt, TAB, 1);
      var value := Render(m.value, fmt, d);
      var k := s + |tabs|; var colon := k + |key|; var t := colon + 1 + |gap|;
      && At(c, s, tabs) && At(c, k, key) && At(c, colon, [COLON]) && At(c, colon + 1, gap) && At(c, t, value)
      && t + |value| == s + |RenderPair(m, fmt, d)| <= |c|
  {
    hide At;
    hide Render;
    hide RenderString;
    hide Extra;
    var tabs, key, gap, value := Extra(fmt, TAB, d), RenderString(m.key), Extra(fmt, TAB, 1), Render(m.value, fmt, d);
    AtSplit(c, s, tabs + key + ([COLON] + gap), value);
    AtSplit3(c, s, tabs, key, [COLON] + gap);
    AtSplit(c, s + |tabs| + |key|, [COLON], gap);
  }

  lemma SplitPair(m: Member, fmt: bool, d: nat, c: seq<byte>, s: nat) returns (colon: nat, t: nat)
    requires NulFree(m.key) && Faithful(m.value) && At(c, s, RenderPair(m, fmt, d))
    ensures s < |c| && c[Skip(c, s)] == QUOTE && ParseString(c, Skip(c, s)) == Some((m.key, colon))
    ensures colon < t < |c| && c[colon] == COLON && Skip(c, colon + 1) == t
    ensures At(c, t, Render(m.value, fmt, d))
    ensures t + |Render(m.value, fmt, d)| == s + |RenderPair(m, fmt, d)|
  {
    hide At;
    hide Skip;
    hide Render;
    hide RenderPair;
    hide Escaped;
    hide Extra;
    hide ParseString;
    hide Faithful;
    PairParts(m, fmt, d, c, s);
    var k := s + |Extra(fmt, TAB, d)|;
    colon := k + |RenderString(m.key)|;
    t := colon + 1 + |Extra(fmt, TAB, 1)|;
    SkipExtra(fmt, TAB, d, c, s);
    AtIndex(c, k, RenderString(m.key), 0);
    StringRoundTrip(m.key, c, k);
    AtIndex(c, colon, [COLON], 0);
    FirstByte(m.value, fmt, d);
    AtIndex(c, t, Render(m.value, fmt, d), 0);
    SkipExtra(fmt, TAB, 1, c, colon + 1);
  }

  lemma ClosedObject(c: seq<byte>, o: nat, depth: nat, members: seq<Member>, close: nat, ok: bool)
    requires IsText(c) && o < |c| && c[o] == OPEN_OBJECT && close < |c|
    requires if members == [] then ok == (depth < NESTING_LIMIT) else ok ==> depth < NESTING_LIMIT
    requires var first := Skip(c, o + 1);
      if members == [] then first == close && c[close] == CLOSE_OBJECT
      else c[first] != CLOSE_OBJECT &&
           (depth < NESTING_LIMIT ==> ParseMembers(c, first - 1, depth + 1) == Guard(ok, (members, close)))
    ensures ParseObject(c, o, depth) == Guard(ok, (members, close + 1))
  {
  }

  lemma LastMember(c: seq<byte>, o: nat, depth: nat, m: Member, e: nat, ok: bool)
    requires IsText(c) && o + 1 < |c| && ParseMember(c, o, depth) == Guard(ok, (m, e))
    requires e < |c| && c[Skip(c, e)] == CLOSE_OBJECT
    ensures ParseMembers(c, o, depth) == Guard(ok, ([m], Skip(c, e)))
  {
  }

  lemma MoreMembers(c: seq<byte>, o: nat, depth: nat, m: Member, e: nat, ok: bool, rest: seq<Member>, r: nat, ok': bool)
    requires IsText(c) && o + 1 < |c| && ParseMember(c, o, depth) == Guard(ok, (m, e))
    requires e + 1 < |c| && c[e] == COMMA && ParseMembers(c, e, depth) == Guard(ok', (rest, r))
    ensures ParseMembers(c, o, depth) == Guard(ok && ok', ([m] + rest, r))
  {
  }

  // Members that stand at `s`, followed by white space and the brace at `close`.
  lemma {:induction false} MembersRoundTrip(members: seq<Member>, fmt: bool, d: nat, c: seq<byte>,
                                            o: nat, s: nat, close: nat, depth: nat)
    requires IsText(c) && members != []
    requires forall i :: 0 <= i < |members| ==> NulFree(members[i].key) && Faithful(members[i].value)
    requires depth <= NESTING_LIMIT
    requires At(c, s, RenderMembers(members, fmt, d))
    requires var e := s + |RenderMembers(members, fmt, d)|;
      e < |c| && !IsNumberByte(c[e]) && Skip(c, e) == close && c[close] == CLOSE_OBJECT
    requires o + 1 < |c| && Skip(c, o + 1) == Skip(c, s)
    ensures ParseMembers(c, o, depth) == Guard(depth + HeightOfMembers(members) <= NESTING_LIMIT, (members, close))
    decreases members, 0
  {
    hide At;
    hide Skip;
    hide ParseMember;
    hide ParseMembers;
    hide RenderPair;
    var e, t := SplitMembers(members, fmt, d, c, s);
    PairRoundTrip(members[0], fmt, d, c, o, s, depth);
    var ok := depth + Height(members[0].value) <= NESTING_LIMIT;
    if |members| > 1 {
      MembersRoundTrip(members[1..], fmt, d, c, e, t, close, depth);
      MoreMembers(c, o, depth, members[0], e, ok, members[1..], close,
                  depth + HeightOfMembers(members[1..]) <= NESTING_LIMIT);
      assert members == [members[0]] + members[1..];
    } else {
      LastMember(c, o, depth, members[0], e, ok);
      assert members == [members[0]];
    }
  }

  // Where the first pair ends and where the remaining members stand.
  lemma SplitMembers(members: seq<Member>, fmt: bool, d: nat, c: seq<byte>, s: nat) returns (e: nat, t: nat)
    requires members != [] && At(c, s, RenderMembers(members, fmt, d))
    requires s + |RenderMembers(members, fmt, d)| < |c|
    ensures e == s + |RenderPair(members[0], fmt, d)| && At(c, s, RenderPair(members[0], fmt, d))
    ensures e <= t && At(c, t, RenderMembers(members[1..], fmt, d))
    ensures t + |RenderMembers(members[1..], fmt, d)| == s + |RenderMembers(members, fmt, d)|
    ensures |members| > 1 ==> e < t && c[e] == COMMA && Skip(c, e + 1) == Skip(c, t)
    ensures |members| == 1 ==> Skip(c, e) == Skip(c, t) && (e == t || c[e] == NEWLINE)
  {
    hide At;
    hide Skip;
    hide RenderPair;
    var head, line := RenderPair(members[0], fmt, d), LineEnd(fmt, |members| > 1);
    var rest := RenderMembers(members[1..], fmt, d);
    AtSplit3(c, s, head, line, rest);
    e, t := s + |head|, s + |head| + |line|;
    AfterPair(fmt, |members| > 1, c, e);
  }

  // Behind a pair comes either its comma or nothing but white space.
  lemma AfterPair(fmt: bool, more: bool, c: seq<byte>, e: nat)
    requires At(c, e, LineEnd(fmt, more)) && e + |LineEnd(fmt, more)| < |c|
    ensures more ==> c[e] == COMMA && Skip(c, e + 1) == Skip(c, e + |LineEnd(fmt, more)|)
    ensures !more ==> Skip(c, e) == Skip(c, e + |LineEnd(fmt, more)|)
    ensures !more && !fmt ==> |LineEnd(fmt, more)| == 0
    ensures !more && fmt ==> c[e] == NEWLINE
  {
    hide At;
    hide Skip;
    var comma := if more then [COMMA] else [];
    AtSplit(c, e, comma, Extra(fmt, NEWLINE, 1));
    SkipExtra(fmt, NEWLINE, 1, c, e + |comma|);
    if more {
      AtIndex(c, e, comma, 0);
    } else if fmt {
      AtIndex(c, e, Extra(fmt, NEWLINE, 1), 0);
    }
  }

  // Where the members and the closing brace of an object stand.
  lemma SplitObject(members: seq<Member>, fmt: bool, d: nat, c: seq<byte>, o: nat) returns (s: nat, e: nat, close: nat)
    requires At(c, o, Render(Object(members), fmt, d)) && o + |Render(Object(members), fmt, d)| < |c|
    ensures o < s <= e <= close < |c| && Skip(c, o + 1) == Skip(c, s)
    ensures At(c, s, RenderMembers(members, fmt, d + 1)) && e == s + |RenderMembers(members, fmt, d + 1)|
    ensures close + 1 == o + |Render(Object(members), fmt, d)| && c[close] == CLOSE_OBJECT
    ensures Skip(c, e) == close && !IsNumberByte(c[e])
  {
    hide At;
    hide Skip;
    hide RenderMembers;
    var newline, body, tabs := Extra(fmt, NEWLINE, 1), RenderMembers(members, fmt, d + 1), Extra(fmt, TAB, d);
    AtSplit3(c, o, [OPEN_OBJECT] + newline, body, tabs + [CLOSE_OBJECT]);
    AtSplit(c, o, [OPEN_OBJECT], newline);
    s := o + 1 + |newline|;
    e := s + |body|;
    close := e + |tabs|;
    SkipExtra(fmt, NEWLINE, 1, c, o + 1);
    AtSplit(c, e, tabs, [CLOSE_OBJECT]);
    SkipExtra(fmt, TAB, d, c, e);
    AtIndex(c, close, [CLOSE_OBJECT], 0);
    if |tabs| > 0 {
      AtIndex(c, e, tabs, 0);
    }
  }

  lemma NameFollows(members: seq<Member>, fmt: bool, d: nat, c: seq<byte>, s: nat)
    requires members != [] && NulFree(members[0].key) && Faithful(members[0].value)
    requires At(c, s, RenderMembers(members, fmt, d)) && s + |RenderMembers(members, fmt, d)| < |c|
    ensures s < |c| && c[Skip(c, s)] == QUOTE
  {
    hide At;
    hide Skip;
    hide ParseString;
    var _, _ := SplitMembers(members, fmt, d, c, s);
    var _, _ := SplitPair(members[0], fmt, d, c, s);
  }

  lemma {:induction false} ObjectRoundTrip(members: seq<Member>, fmt: bool, d: nat, c: seq<byte>, o: nat, depth: nat)
    requires IsText(c) && Faithful(Object(members)) && depth <= NESTING_LIMIT
    requires o < |c| && c[o] == OPEN_OBJECT
    requires At(c, o, Render(Object(members), fmt, d)) && o + |Render(Object(members), fmt, d)| < |c|
    ensures ParseObject(c, o, depth)
      == Guard(depth + Height(Object(members)) <= NESTING_LIMIT, (members, o + |Render(Object(members), fmt, d)|))
    decreases members, 2
  {
    hide At;
    hide Skip;
    hide ParseObject;
    hide ParseMembers;
    hide Render;
    hide RenderPair;
    var s, e, close := SplitObject(members, fmt, d, c, o);
    if members != [] {
      NameFollows(members, fmt, d + 1, c, s);
      if depth < NESTING_LIMIT {
        MembersRoundTrip(members, fmt, d + 1, c, Skip(c, s) - 1, s, close, depth + 1);
      }
    }
    ClosedObject(c, o, depth, members, close, depth + 1 + HeightOfMembers(members) <= NESTING_LIMIT);
  }

  // ----- The C string as a whole -----

  lemma {:induction false} FaithfulIsCStrings(v: Json)
    requires Faithful(v)
    ensures CStrings(v)
  {
    match v {
      case Number(t) => assert forall i :: 0 <= i < |t| ==> IsNumberByte(t[i]);
      case Array(items) =>
        forall i | 0 <= i < |items| ensures CStrings(items[i]) {
          FaithfulIsCStrings(items[i]);
        }
      case Object(members) =>
        forall i | 0 <= i < |members| ensures CStrings(members[i].value) {
          FaithfulIsCStrings(members[i].value);
        }
      case _ =>
    }
  }

  // Parsing a printed value returns it exactly when its nesting is within the
  // limit, formatted or not, with or without the demand that nothing follows.
  lemma ParsePrint(v: Json, fmt: bool, requireEnd: bool)
    requires Faithful(v)
    ensures NulFree(Render(v, fmt, 0))
    ensures Parse(Render(v, fmt, 0), requireEnd) == if Height(v) <= 1000 then Some(v) else None
  {
    hide Render;
    hide ParseValue;
    hide Faithful;
    hide NulFree;
    FaithfulIsCStrings(v);
    RenderedNulFree(v, fmt, 0);
    var text := Render(v, fmt, 0);
    var c := Terminated(text);
    assert c[0..|text|] == text;
    FirstByte(v, fmt, 0);
    ValueRoundTrip(v, fmt, 0, c, 0, 0);
    assert Skip(c, |text|) == |text|;
  }
}
