/**
 JSON text as a tree of spellings: a value, written with any white space between
 its tokens and any spelling of its characters and numbers. What the parser
 accepts is exactly such a text in front of the rest.
 */
module JsonSpelling {
  import opened Bytes
  import opened JsonText
  import opened JsonTokens
  import opened JsonGrammar
  import opened JsonRoundTrip

  // ----- The tree -----

  datatype Spelled =
    | NullWord
    | FalseWord
    | TrueWord
    | Numeral(d: Decimal)
    | Literal(units: seq<Unit>)
    | EmptyArray(gap: seq<byte>)
    | FullArray(items: seq<Item>)
    | EmptyObject(gap: seq<byte>)
    | FullObject(entries: seq<Entry>)

  // A value between its gaps.
  datatype Item = Item(before: seq<byte>, value: Spelled, after: seq<byte>)

  // A name between its gaps, the colon, and the value.
  datatype Entry = Entry(before: seq<byte>, key: seq<Unit>, after: seq<byte>, item: Item)

  // Every byte up to the space is white.
  predicate White(gap: seq<byte>) {
    forall i :: 0 <= i < |gap| ==> gap[i] <= 32
  }

  predicate Ok(x: Spelled)
    decreases x, 1
  {
    match x
    case Numeral(d) => OkDecimal(d)
    case Literal(units) => OkString(units)
    case EmptyArray(gap) => White(gap)
    case FullArray(items) => items != [] && forall i :: 0 <= i < |items| ==> OkItem(items[i])
    case EmptyObject(gap) => White(gap)
    case FullObject(entries) => entries != [] && forall i :: 0 <= i < |entries| ==> OkEntry(entries[i])
    case _ => true
  }

  predicate OkItem(m: Item)
    decreases m, 2
  {
    White(m.before) && Ok(m.value) && White(m.after)
  }

  predicate OkEntry(e: Entry)
    decreases e, 3
  {
    White(e.before) && OkString(e.key) && White(e.after) && OkItem(e.item)
  }

  // The text: the words null, false and true, brackets, braces, commas, colons.
  function Spell(x: Spelled): seq<byte>
    decreases x, 1
  {
    match x
    case NullWord => [110, 117, 108, 108]
    case FalseWord => [102, 97, 108, 115, 101]
    case TrueWord => [116, 114, 117, 101]
    case Numeral(d) => DecimalText(d)
    case Literal(units) => Quoted(units)
    case EmptyArray(gap) => [91] + gap + [93]
    case FullArray(items) => [91] + SpellItems(items) + [93]
    case EmptyObject(gap) => [123] + gap + [125]
    case FullObject(entries) => [123] + SpellEntries(entries) + [125]
  }

  function SpellItem(m: Item): seq<byte>
    decreases m, 2
  {
    m.before + Spell(m.value) + m.after
  }

  function SpellItems(items: seq<Item>): seq<byte>
    decreases items, 0
  {
    if items == [] then []
    else if |items| == 1 then SpellItem(items[0])
    else SpellItem(items[0]) + [44] + SpellItems(items[1..])
  }

  function SpellEntry(e: Entry): seq<byte>
    decreases e, 3
  {
    e.before + Quoted(e.key) + e.after + [58] + SpellItem(e.item)
  }

  function SpellEntries(entries: seq<Entry>): seq<byte>
    decreases entries, 0
  {
    if entries == [] then []
    else if |entries| == 1 then SpellEntry(entries[0])
    else SpellEntry(entries[0]) + [44] + SpellEntries(entries[1..])
  }

  // The value.
  function Value(x: Spelled): Json
    decreases x, 1
  {
    match x
    case NullWord => Null
    case FalseWord => False
    case TrueWord => True
    case Numeral(d) => Number(DecimalText(d))
    case Literal(units) => String(UnitsBytes(units))
    case EmptyArray(_) => Array([])
    case FullArray(items) => Array(Values(items))
    case EmptyObject(_) => Object([])
    case FullObject(entries) => Object(Members(entries))
  }

  function Values(items: seq<Item>): seq<Json>
    decreases items, 0
  {
    if items == [] then [] else [Value(items[0].value)] + Values(items[1..])
  }

  function MemberOf(e: Entry): Member
    decreases e, 3
  {
    Member(UnitsBytes(e.key), Value(e.item.value))
  }

  function Members(entries: seq<Entry>): seq<Member>
    decreases entries, 0
  {
    if entries == [] then [] else [MemberOf(entries[0])] + Members(entries[1..])
  }

  // A number ends where no longer one is in front.
  ghost predicate Clear(x: Spelled, c: seq<byte>, o: nat) {
    x.Numeral? ==> Longest(x.d, c, o)
  }

  // ----- White space -----

  lemma {:induction false} SkipGap(gap: seq<byte>, c: seq<byte>, o: nat)
    requires White(gap) && At(c, o, gap) && o + |gap| < |c| && c[o + |gap|] > 32
    ensures Skip(c, o) == o + |gap|
  {
    if gap != [] {
      assert gap == [gap[0]] + gap[1..];
      AtSplit(c, o, [gap[0]], gap[1..]);
      AtIndex(c, o, gap, 0);
      SkipGap(gap[1..], c, o + 1);
    }
  }

  lemma {:induction false} SkippedIsWhite(c: seq<byte>, o: nat)
    requires o < |c|
    ensures o <= Skip(c, o) < |c| && White(c[o..Skip(c, o)])
    decreases |c| - o
  {
    if c[o] <= 32 && o + 1 < |c| {
      SkippedIsWhite(c, o + 1);
      assert c[o..Skip(c, o)] == [c[o]] + c[o + 1..Skip(c, o)];
    }
  }

  // ----- Every spelling is parsed -----

  predicate First(x: Spelled, b: byte) {
    match x
    case NullWord => b == 110
    case FalseWord => b == 102
    case TrueWord => b == 116
    case Numeral(_) => b == 45 || 48 <= b <= 57
    case Literal(_) => b == 34
    case EmptyArray(_) => b == 91
    case FullArray(_) => b == 91
    case EmptyObject(_) => b == 123
    case FullObject(_) => b == 123
  }

  lemma FirstOfSpelled(x: Spelled)
    requires Ok(x)
    ensures |Spell(x)| > 0 && First(x, Spell(x)[0]) && Starts(Spell(x)[0])
  {
    hide DecimalText, OkParts, OkString;
    match x {
      case Numeral(d) => FirstOfDecimal(d);
      case _ =>
    }
  }

  lemma {:induction false} ValueParses(x: Spelled, c: seq<byte>, o: nat, depth: nat)
    requires IsText(c) && Ok(x) && At(c, o, Spell(x)) && o + |Spell(x)| < |c| && Clear(x, c, o)
    requires depth + Height(Value(x)) <= 1000
    ensures ParseValue(c, o, depth) == Some((Value(x), o + |Spell(x)|))
    decreases x, 1
  {
    hide At, ParseArray, ParseObject, ParseString, ParseNumber, ParseKeyword, OkString, OkDecimal, Quoted, DecimalText,
      SpellItems, SpellEntries, Values, Members, Longest, HeightOfItems, HeightOfMembers;
    FirstOfSpelled(x);
    AtIndex(c, o, Spell(x), 0);
    match x {
      case NullWord => WordParses(x, c, o, depth);
      case FalseWord => WordParses(x, c, o, depth);
      case TrueWord => WordParses(x, c, o, depth);
      case Numeral(d) =>
        NotKeyword(c, o);
        NumberParses(d, c, o);
      case Literal(units) =>
        NotKeyword(c, o);
        StringParses(units, c, o);
      case EmptyArray(gap) =>
        NotKeyword(c, o);
        EmptyArrayParses(gap, c, o, depth);
      case FullArray(items) =>
        NotKeyword(c, o);
        ArrayParses(items, c, o, depth);
      case EmptyObject(gap) =>
        NotKeyword(c, o);
        EmptyObjectParses(gap, c, o, depth);
      case FullObject(entries) =>
        NotKeyword(c, o);
        ObjectParses(entries, c, o, depth);
    }
  }

  lemma WordParses(x: Spelled, c: seq<byte>, o: nat, depth: nat)
    requires IsText(c) && (x.NullWord? || x.FalseWord? || x.TrueWord?) && At(c, o, Spell(x)) && o + |Spell(x)| < |c|
    ensures ParseValue(c, o, depth) == Some((Value(x), o + |Spell(x)|))
  {
    hide ParseArray, ParseObject, ParseString, ParseNumber;
    AtIndex(c, o, Spell(x), 0);
  }

  lemma EmptyArrayParses(gap: seq<byte>, c: seq<byte>, o: nat, depth: nat)
    requires IsText(c) && White(gap) && At(c, o, [91] + gap + [93]) && o + |gap| + 2 < |c| && depth < 1000
    ensures c[o] == 91 && ParseArray(c, o, depth) == Some(([], o + |gap| + 2))
  {
    hide At, Skip, ParseItems;
    AtSplit3(c, o, [91], gap, [93]);
    AtIndex(c, o, [91], 0);
    AtIndex(c, o + 1 + |gap|, [93], 0);
    SkipGap(gap, c, o + 1);
  }

  lemma EmptyObjectParses(gap: seq<byte>, c: seq<byte>, o: nat, depth: nat)
    requires IsText(c) && White(gap) && At(c, o, [123] + gap + [125]) && o + |gap| + 2 < |c| && depth < 1000
    ensures c[o] == 123 && ParseObject(c, o, depth) == Some(([], o + |gap| + 2))
  {
    hide At, Skip, ParseMembers;
    AtSplit3(c, o, [123], gap, [125]);
    AtIndex(c, o, [123], 0);
    AtIndex(c, o + 1 + |gap|, [125], 0);
    SkipGap(gap, c, o + 1);
  }

  // Behind an item or an entry comes a comma, a bracket or a brace.
  predicate Ends(b: byte) {
    b == 44 || b == 93 || b == 125
  }

  // Where the value of an item stands, and what the parser finds around it.
  lemma {:induction false} ItemParses(m: Item, c: seq<byte>, s: nat, depth: nat) returns (p: nat, q: nat)
    requires IsText(c) && OkItem(m) && At(c, s, SpellItem(m))
    requires var e := s + |SpellItem(m)|; e < |c| && Ends(c[e])
    requires depth + Height(Value(m.value)) <= 1000
    ensures s <= p < |c| && Skip(c, s) == p && Starts(c[p])
    ensures ParseValue(c, p, depth) == Some((Value(m.value), q)) && q < |c| && Skip(c, q) == s + |SpellItem(m)|
    decreases m, 2
  {
    hide At, Skip, SpellItem, Spell, Value, ParseValue, Ok, Height, Clear, White;
    p, q := ItemStands(m, c, s);
    ClearHere(m.value, c, p);
    ValueParses(m.value, c, p, depth);
  }

  // Where the value stands, and that nothing but white space is around it.
  lemma ItemStands(m: Item, c: seq<byte>, s: nat) returns (p: nat, q: nat)
    requires OkItem(m) && At(c, s, SpellItem(m))
    requires var e := s + |SpellItem(m)|; e < |c| && Ends(c[e])
    ensures s <= p < |c| && Skip(c, s) == p && Starts(c[p]) && At(c, p, Spell(m.value))
    ensures q == p + |Spell(m.value)| < |c| && Skip(c, q) == s + |SpellItem(m)| && !IsNumberByte(c[q])
  {
    hide At, Skip, Spell, Ok, White;
    p := s + |m.before|;
    q := p + |Spell(m.value)|;
    FirstOfSpelled(m.value);
    GapsAround(m.before, Spell(m.value), m.after, c, s);
  }

  lemma GapsAround(before: seq<byte>, r: seq<byte>, after: seq<byte>, c: seq<byte>, s: nat)
    requires White(before) && White(after) && r != [] && Starts(r[0]) && At(c, s, before + r + after)
    requires var e := s + |before + r + after|; e < |c| && Ends(c[e])
    ensures var p := s + |before|; Skip(c, s) == p && At(c, p, r) && c[p] == r[0]
    ensures var q := s + |before| + |r|; Skip(c, q) == q + |after| && !IsNumberByte(c[q])
  {
    hide At, Skip, White;
    var p, q := s + |before|, s + |before| + |r|;
    AtSplit3(c, s, before, r, after);
    AtIndex(c, p, r, 0);
    SkipGap(before, c, s);
    SkipGap(after, c, q);
    if after != [] {
      AtIndex(c, q, after, 0);
      FirstWhite(after);
    }
  }

  lemma FirstWhite(gap: seq<byte>)
    requires gap != [] && White(gap)
    ensures gap[0] <= 32
  {
  }

  lemma ClearHere(x: Spelled, c: seq<byte>, o: nat)
    requires At(c, o, Spell(x)) && o + |Spell(x)| < |c| && !IsNumberByte(c[o + |Spell(x)|])
    ensures Clear(x, c, o)
  {
    hide At, DecimalText, Longest;
    if x.Numeral? {
      EndedIsLongest(x.d, c, o);
    }
  }

  lemma HeightOfFirst(items: seq<Item>)
    requires items != []
    ensures HeightOfItems(Values(items)) == Max(Height(Value(items[0].value)), HeightOfItems(Values(items[1..])))
  {
    hide Value, Height;
    assert Values(items)[1..] == Values(items[1..]);
  }

  // Items that stand at `s`, before a closing bracket.
  lemma {:induction false} ItemsParse(items: seq<Item>, c: seq<byte>, o: nat, s: nat, depth: nat)
    requires IsText(c) && items != [] && (forall i :: 0 <= i < |items| ==> OkItem(items[i]))
    requires At(c, s, SpellItems(items))
    requires var e := s + |SpellItems(items)|; e + 1 < |c| && c[e] == 93
    requires o + 1 < |c| && Skip(c, o + 1) == Skip(c, s)
    requires depth + HeightOfItems(Values(items)) <= 1000
    ensures ParseItems(c, o, depth) == Some((Values(items), s + |SpellItems(items)|))
    decreases items, 0
  {
    hide At, Skip, SpellItem, Value, ParseValue, ParseItems, OkItem, Height, HeightOfItems;
    HeightOfFirst(items);
    if |items| == 1 {
      var p, q := ItemParses(items[0], c, s, depth);
      LastItemParses(c, o, depth, Value(items[0].value), q);
      assert Values(items) == [Value(items[0].value)];
    } else {
      AtSplit3(c, s, SpellItem(items[0]), [44], SpellItems(items[1..]));
      var e := s + |SpellItem(items[0])|;
      AtIndex(c, e, [44], 0);
      var p, q := ItemParses(items[0], c, s, depth);
      ItemsParse(items[1..], c, e, e + 1, depth);
      MoreItemsParse(c, o, depth, Value(items[0].value), q, Values(items[1..]), s + |SpellItems(items)|);
    }
  }

  lemma LastItemParses(c: seq<byte>, o: nat, depth: nat, v: Json, q: nat)
    requires IsText(c) && o + 1 < |c| && q < |c| && ParseValue(c, Skip(c, o + 1), depth) == Some((v, q))
    requires c[Skip(c, q)] == 93
    ensures ParseItems(c, o, depth) == Some(([v], Skip(c, q)))
  {
  }

  lemma MoreItemsParse(c: seq<byte>, o: nat, depth: nat, v: Json, q: nat, rest: seq<Json>, r: nat)
    requires IsText(c) && o + 1 < |c| && q < |c| && ParseValue(c, Skip(c, o + 1), depth) == Some((v, q))
    requires c[Skip(c, q)] == 44 && Skip(c, q) + 1 < |c| && ParseItems(c, Skip(c, q), depth) == Some((rest, r))
    ensures ParseItems(c, o, depth) == Some(([v] + rest, r))
  {
  }

  lemma {:induction false} ArrayParses(items: seq<Item>, c: seq<byte>, o: nat, depth: nat)
    requires IsText(c) && items != [] && (forall i :: 0 <= i < |items| ==> OkItem(items[i]))
    requires At(c, o, [91] + SpellItems(items) + [93]) && o + |SpellItems(items)| + 2 < |c|
    requires depth + 1 + HeightOfItems(Values(items)) <= 1000
    ensures c[o] == 91 && ParseArray(c, o, depth) == Some((Values(items), o + |SpellItems(items)| + 2))
    decreases items, 2
  {
    hide At, Skip, SpellItem, Value, ParseItems, OkItem, Height, HeightOfItems;
    AtSplit3(c, o, [91], SpellItems(items), [93]);
    AtIndex(c, o, [91], 0);
    AtIndex(c, o + 1 + |SpellItems(items)|, [93], 0);
    ItemsBegin(items, c, o + 1);
    ItemsParse(items, c, Skip(c, o + 1) - 1, o + 1, depth + 1);
  }

  lemma ItemsBegin(items: seq<Item>, c: seq<byte>, s: nat)
    requires items != [] && OkItem(items[0]) && At(c, s, SpellItems(items))
    ensures s < |c| && s <= Skip(c, s) < |c| && Starts(c[Skip(c, s)])
  {
    hide At, Skip, Spell, Ok;
    if |items| > 1 {
      AtSplit3(c, s, SpellItem(items[0]), [44], SpellItems(items[1..]));
    }
    ItemBegins(items[0], c, s);
  }

  lemma ItemBegins(m: Item, c: seq<byte>, s: nat)
    requires OkItem(m) && At(c, s, SpellItem(m))
    ensures s < |c| && s <= Skip(c, s) < |c| && Starts(c[Skip(c, s)])
  {
    hide At, Skip, Spell, Ok;
    AtSplit3(c, s, m.before, Spell(m.value), m.after);
    FirstOfSpelled(m.value);
    AtIndex(c, s + |m.before|, Spell(m.value), 0);
    SkipGap(m.before, c, s);
  }

  // The same for entries.
  lemma {:induction false} EntryParses(e: Entry, c: seq<byte>, o: nat, s: nat, depth: nat) returns (q: nat)
    requires IsText(c) && OkEntry(e) && At(c, s, SpellEntry(e))
    requires var end := s + |SpellEntry(e)|; end < |c| && Ends(c[end])
    requires o + 1 < |c| && Skip(c, o + 1) == Skip(c, s)
    requires depth + Height(Value(e.item.value)) <= 1000
    ensures c[Skip(c, s)] == 34
    ensures ParseMember(c, o, depth) == Some((MemberOf(e), q)) && q < |c| && Skip(c, q) == s + |SpellEntry(e)|
    decreases e, 3
  {
    hide At, Skip, SpellItem, Value, ParseValue, OkItem, Height, ParseString, UnitsBytes, OkString;
    var colon := KeyParses(e, c, s);
    var p;
    p, q := ItemParses(e.item, c, colon + 1, depth);
  }

  // The name, and where the colon and the item stand.
  lemma KeyParses(e: Entry, c: seq<byte>, s: nat) returns (colon: nat)
    requires OkEntry(e) && At(c, s, SpellEntry(e)) && s + |SpellEntry(e)| < |c|
    ensures s < |c| && c[Skip(c, s)] == 34 && ParseString(c, Skip(c, s)).Some?
    ensures var (key, end) := ParseString(c, Skip(c, s)).value; key == UnitsBytes(e.key) && Skip(c, end) == colon
    ensures colon < |c| && c[colon] == 58 && At(c, colon + 1, SpellItem(e.item))
    ensures colon + 1 + |SpellItem(e.item)| == s + |SpellEntry(e)|
  {
    hide At, Skip, SpellItem, OkItem, ParseString, UnitsBytes, OkString, UnitsText, White;
    AtSplit3(c, s, e.before + Quoted(e.key) + e.after, [58], SpellItem(e.item));
    AtSplit3(c, s, e.before, Quoted(e.key), e.after);
    var k := s + |e.before|;
    var end := k + |Quoted(e.key)|;
    colon := end + |e.after|;
    AtIndex(c, k, Quoted(e.key), 0);
    AtIndex(c, colon, [58], 0);
    SkipGap(e.before, c, s);
    StringParses(e.key, c, k);
    SkipGap(e.after, c, end);
  }

  lemma HeightOfFirstMember(entries: seq<Entry>)
    requires entries != []
    ensures HeightOfMembers(Members(entries))
         == Max(Height(Value(entries[0].item.value)), HeightOfMembers(Members(entries[1..])))
  {
    hide Value, Height, UnitsBytes;
    assert Members(entries)[1..] == Members(entries[1..]);
  }

  lemma {:induction false} EntriesParse(entries: seq<Entry>, c: seq<byte>, o: nat, s: nat, depth: nat)
    requires IsText(c) && entries != [] && (forall i :: 0 <= i < |entries| ==> OkEntry(entries[i]))
    requires At(c, s, SpellEntries(entries))
    requires var e := s + |SpellEntries(entries)|; e + 1 < |c| && c[e] == 125
    requires o + 1 < |c| && Skip(c, o + 1) == Skip(c, s)
    requires depth + HeightOfMembers(Members(entries)) <= 1000
    ensures c[Skip(c, s)] == 34
    ensures ParseMembers(c, o, depth) == Some((Members(entries), s + |SpellEntries(entries)|))
    decreases entries, 0
  {
    hide At, Skip, SpellEntry, Value, MemberOf, ParseMember, ParseMembers, OkEntry, Height, HeightOfMembers;
    HeightOfFirstMember(entries);
    if |entries| == 1 {
      var q := EntryParses(entries[0], c, o, s, depth);
      LastEntryParses(c, o, depth, MemberOf(entries[0]), q);
      assert Members(entries) == [MemberOf(entries[0])];
    } else {
      AtSplit3(c, s, SpellEntry(entries[0]), [44], SpellEntries(entries[1..]));
      var e := s + |SpellEntry(entries[0])|;
      AtIndex(c, e, [44], 0);
      var q := EntryParses(entries[0], c, o, s, depth);
      EntriesParse(entries[1..], c, e, e + 1, depth);
      MoreEntriesParse(c, o, depth, MemberOf(entries[0]), q, Members(entries[1..]), s + |SpellEntries(entries)|);
    }
  }

  lemma LastEntryParses(c: seq<byte>, o: nat, depth: nat, m: Member, q: nat)
    requires IsText(c) && o + 1 < |c| && q < |c| && ParseMember(c, o, depth) == Some((m, q))
    requires c[Skip(c, q)] == 125
    ensures ParseMembers(c, o, depth) == Some(([m], Skip(c, q)))
  {
  }

  lemma MoreEntriesParse(c: seq<byte>, o: nat, depth: nat, m: Member, q: nat, rest: seq<Member>, r: nat)
    requires IsText(c) && o + 1 < |c| && q < |c| && ParseMember(c, o, depth) == Some((m, q))
    requires c[Skip(c, q)] == 44 && Skip(c, q) + 1 < |c| && ParseMembers(c, Skip(c, q), depth) == Some((rest, r))
    ensures ParseMembers(c, o, depth) == Some(([m] + rest, r))
  {
  }

  lemma {:induction false} ObjectParses(entries: seq<Entry>, c: seq<byte>, o: nat, depth: nat)
    requires IsText(c) && entries != [] && (forall i :: 0 <= i < |entries| ==> OkEntry(entries[i]))
    requires At(c, o, [123] + SpellEntries(entries) + [125]) && o + |SpellEntries(entries)| + 2 < |c|
    requires depth + 1 + HeightOfMembers(Members(entries)) <= 1000
    ensures c[o] == 123 && ParseObject(c, o, depth) == Some((Members(entries), o + |SpellEntries(entries)| + 2))
    decreases entries, 2
  {
    hide At, Skip, SpellEntry, MemberOf, ParseMembers, OkEntry, HeightOfMembers;
    AtSplit3(c, o, [123], SpellEntries(entries), [125]);
    AtIndex(c, o, [123], 0);
    AtIndex(c, o + 1 + |SpellEntries(entries)|, [125], 0);
    SkipsForward(c, o + 1);
    EntriesParse(entries, c, Skip(c, o + 1) - 1, o + 1, depth + 1);
  }

  lemma SkipsForward(c: seq<byte>, o: nat)
    requires 0 < o < |c|
    ensures 0 < Skip(c, o) < |c| && Skip(c, Skip(c, o)) == Skip(c, o)
  {
    SkippedIsWhite(c, o);
    SkipTwice(c, o);
  }

  lemma {:induction false} SkipTwice(c: seq<byte>, o: nat)
    requires o < |c|
    ensures Skip(c, Skip(c, o)) == Skip(c, o)
    decreases |c| - o
  {
    if c[o] <= 32 && o + 1 < |c| {
      SkipTwice(c, o + 1);
    }
  }

  // ----- And nothing else is -----

  // The spelling that the parser has read.
  lemma {:induction false} ValueOf(c: seq<byte>, o: nat, depth: nat) returns (x: Spelled)
    requires IsText(c) && o < |c| && depth <= 1000 && ParseValue(c, o, depth).Some?
    ensures Ok(x) && At(c, o, Spell(x)) && Clear(x, c, o) && depth + Height(Value(x)) <= 1000
    ensures ParseValue(c, o, depth) == Some((Value(x), o + |Spell(x)|))
    decreases |c| - o, 1
  {
    hide At, ParseArray, ParseObject, ParseString, ParseNumber, ParseKeyword, OkString, OkDecimal, DecimalText, Quoted,
      Longest, HeightOfItems, HeightOfMembers, SpellItems, SpellEntries, Values, Members;
    if ParseKeyword(c, o).Some? {
      x := WordOf(c, o);
    } else if c[o] == QUOTE {
      var units := StringOf(c, o);
      x := Literal(units);
    } else if c[o] == 45 || IsDigit(c[o]) {
      var d := NumberOf(c, o);
      x := Numeral(d);
      assert At(c, o, DecimalText(d)) by { LongestStands(d, c, o); }
    } else if c[o] == OPEN_ARRAY {
      x := ArrayOf(c, o, depth);
    } else {
      x := ObjectOf(c, o, depth);
    }
  }

  lemma LongestStands(d: Decimal, c: seq<byte>, o: nat)
    requires Longest(d, c, o)
    ensures At(c, o, DecimalText(d))
  {
  }

  lemma WordOf(c: seq<byte>, o: nat) returns (x: Spelled)
    requires IsText(c) && o < |c| && ParseKeyword(c, o).Some?
    ensures (x.NullWord? || x.FalseWord? || x.TrueWord?) && At(c, o, Spell(x))
    ensures ParseKeyword(c, o) == Some((Value(x), o + |Spell(x)|))
  {
    x := if At(c, o, NULL_TEXT) then NullWord else if At(c, o, FALSE_TEXT) then FalseWord else TrueWord;
  }

  // The value at the end of the white space at `s`, between its gaps.
  lemma {:induction false} ItemOf(c: seq<byte>, s: nat, depth: nat) returns (m: Item)
    requires IsText(c) && s < |c| && depth <= 1000 && ParseValue(c, Skip(c, s), depth).Some?
    ensures OkItem(m) && At(c, s, SpellItem(m)) && depth + Height(Value(m.value)) <= 1000
    ensures var (v, q) := ParseValue(c, Skip(c, s), depth).value;
      v == Value(m.value) && Skip(c, q) == s + |SpellItem(m)|
    decreases |c| - s, 2
  {
    hide At, Skip, ParseValue, Spell, Ok, Value, Height, Clear;
    SkippedIsWhite(c, s);
    var p := Skip(c, s);
    var x := ValueOf(c, p, depth);
    var q := p + |Spell(x)|;
    SkippedIsWhite(c, q);
    var e := Skip(c, q);
    m := Item(c[s..p], x, c[q..e]);
    JoinAt3(c, s, p, q, e, Spell(x));
  }

  lemma JoinAt3(c: seq<byte>, s: nat, p: nat, q: nat, e: nat, r: seq<byte>)
    requires s <= p <= q <= e <= |c| && At(c, p, r) && q == p + |r|
    ensures At(c, s, c[s..p] + r + c[q..e]) && s + |c[s..p] + r + c[q..e]| == e
  {
    assert c[s..e] == c[s..p] + c[p..q] + c[q..e];
  }

  lemma {:induction false} ItemsOf(c: seq<byte>, o: nat, s: nat, depth: nat) returns (items: seq<Item>)
    requires IsText(c) && o + 1 < |c| && s < |c| && Skip(c, o + 1) == Skip(c, s) && depth <= 1000
    requires ParseItems(c, o, depth).Some?
    ensures items != [] && forall i :: 0 <= i < |items| ==> OkItem(items[i])
    ensures At(c, s, SpellItems(items)) && depth + HeightOfItems(Values(items)) <= 1000
    ensures s + |SpellItems(items)| < |c| && c[s + |SpellItems(items)|] == 93
    ensures ParseItems(c, o, depth) == Some((Values(items), s + |SpellItems(items)|))
    decreases |c| - s, 3
  {
    hide At, Skip, ParseValue, ParseItems, SpellItem, SpellItems, OkItem, Value, Values, Height, HeightOfItems, White;
    ItemsRead(c, o, depth);
    var m := ItemOf(c, s, depth);
    var e := s + |SpellItem(m)|;
    if c[e] == 44 {
      var more := ItemsOf(c, e, e + 1, depth);
      items := [m] + more;
      ItemAndMore(m, more);
      JoinAt(c, s, SpellItem(m), 44, SpellItems(more));
    } else {
      items := [m];
      ItemAlone(m);
    }
  }

  lemma ItemsRead(c: seq<byte>, o: nat, depth: nat)
    requires IsText(c) && o + 1 < |c| && ParseItems(c, o, depth).Some?
    ensures ParseValue(c, Skip(c, o + 1), depth).Some?
    ensures var (v, q) := ParseValue(c, Skip(c, o + 1), depth).value;
      var e := Skip(c, q);
      if c[e] == 44 then
        && e + 1 < |c| && ParseItems(c, e, depth).Some?
        && ParseItems(c, o, depth)
           == Some(([v] + ParseItems(c, e, depth).value.0, ParseItems(c, e, depth).value.1))
      else c[e] == 93 && ParseItems(c, o, depth) == Some(([v], e))
  {
    hide Skip, ParseValue;
  }

  lemma ItemAndMore(m: Item, more: seq<Item>)
    requires more != []
    ensures SpellItems([m] + more) == SpellItem(m) + [44] + SpellItems(more)
    ensures Values([m] + more) == [Value(m.value)] + Values(more)
    ensures HeightOfItems(Values([m] + more)) == Max(Height(Value(m.value)), HeightOfItems(Values(more)))
  {
    hide SpellItem, Value, Height;
    var items := [m] + more;
    assert items[1..] == more;
    HeightOfFirst(items);
  }

  lemma ItemAlone(m: Item)
    ensures SpellItems([m]) == SpellItem(m) && Values([m]) == [Value(m.value)]
    ensures HeightOfItems(Values([m])) == Height(Value(m.value))
  {
    hide SpellItem, Value, Height;
    assert Values([m][1..]) == [];
    HeightOfFirst([m]);
    NoItems();
  }

  lemma NoItems()
    ensures HeightOfItems([]) == 0 && HeightOfMembers([]) == 0
  {
  }

  lemma JoinAt(c: seq<byte>, s: nat, a: seq<byte>, b: byte, r: seq<byte>)
    requires At(c, s, a) && s + |a| < |c| && c[s + |a|] == b && At(c, s + |a| + 1, r)
    ensures At(c, s, a + [b] + r)
  {
    var e := s + |a|;
    assert c[s..e + 1 + |r|] == c[s..e] + [c[e]] + c[e + 1..e + 1 + |r|];
  }

  lemma {:induction false} ArrayOf(c: seq<byte>, o: nat, depth: nat) returns (x: Spelled)
    requires IsText(c) && o < |c| && c[o] == 91 && depth <= 1000 && ParseArray(c, o, depth).Some?
    ensures Ok(x) && At(c, o, Spell(x)) && !x.Numeral? && depth + Height(Value(x)) <= 1000
    ensures var (items, e) := ParseArray(c, o, depth).value; Value(x) == Array(items) && e == o + |Spell(x)|
    decreases |c| - o, 0
  {
    hide At, Skip, ParseItems, SpellItems, OkItem, HeightOfItems, Values;
    SkippedIsWhite(c, o + 1);
    SkipTwice(c, o + 1);
    var first := Skip(c, o + 1);
    if c[first] == CLOSE_ARRAY {
      x := EmptyArray(c[o + 1..first]);
      BracketAt(c, o, c[o + 1..first], first);
      NoItems();
    } else {
      var items := ItemsOf(c, first - 1, o + 1, depth + 1);
      x := FullArray(items);
      EncloseAt(c, o, SpellItems(items), o + 1 + |SpellItems(items)|);
    }
  }

  lemma BracketAt(c: seq<byte>, o: nat, gap: seq<byte>, e: nat)
    requires o + 1 <= e < |c| && gap == c[o + 1..e]
    ensures At(c, o, [c[o]] + gap + [c[e]])
  {
    assert c[o..e + 1] == [c[o]] + c[o + 1..e] + [c[e]];
  }

  lemma EncloseAt(c: seq<byte>, o: nat, r: seq<byte>, e: nat)
    requires At(c, o + 1, r) && e == o + 1 + |r| < |c|
    ensures At(c, o, [c[o]] + r + [c[e]])
  {
    BracketAt(c, o, r, e);
  }

  lemma {:induction false} EntryOf(c: seq<byte>, o: nat, s: nat, depth: nat) returns (e: Entry)
    requires IsText(c) && o + 1 < |c| && s < |c| && Skip(c, o + 1) == Skip(c, s) && depth <= 1000
    requires ParseMember(c, o, depth).Some?
    ensures OkEntry(e) && At(c, s, SpellEntry(e)) && depth + Height(Value(e.item.value)) <= 1000
    ensures var (m, q) := ParseMember(c, o, depth).value; m == MemberOf(e) && Skip(c, q) == s + |SpellEntry(e)|
    decreases |c| - s, 3
  {
    hide At, Skip, ParseValue, SpellItem, OkItem, Value, Height, ParseString, OkString, Quoted, UnitsBytes;
    SkippedIsWhite(c, s);
    var k := Skip(c, s);
    var units := StringOf(c, k);
    var end := k + |Quoted(units)|;
    SkippedIsWhite(c, end);
    var colon := Skip(c, end);
    var m := ItemOf(c, colon + 1, depth);
    e := Entry(c[s..k], units, c[end..colon], m);
    JoinAt3(c, s, k, end, colon, Quoted(units));
    JoinAt(c, s, c[s..k] + Quoted(units) + c[end..colon], 58, SpellItem(m));
  }

  lemma {:induction false} EntriesOf(c: seq<byte>, o: nat, s: nat, depth: nat) returns (entries: seq<Entry>)
    requires IsText(c) && o + 1 < |c| && s < |c| && Skip(c, o + 1) == Skip(c, s) && depth <= 1000
    requires ParseMembers(c, o, depth).Some?
    ensures entries != [] && forall i :: 0 <= i < |entries| ==> OkEntry(entries[i])
    ensures At(c, s, SpellEntries(entries)) && depth + HeightOfMembers(Members(entries)) <= 1000
    ensures s + |SpellEntries(entries)| < |c| && c[s + |SpellEntries(entries)|] == 125
    ensures ParseMembers(c, o, depth) == Some((Members(entries), s + |SpellEntries(entries)|))
    decreases |c| - s, 4
  {
    hide At, Skip, ParseMember, ParseMembers, SpellEntry, SpellEntries, OkEntry, MemberOf, Members, Value, Height,
      HeightOfMembers, White;
    EntriesRead(c, o, depth);
    var m := EntryOf(c, o, s, depth);
    var e := s + |SpellEntry(m)|;
    if c[e] == 44 {
      var more := EntriesOf(c, e, e + 1, depth);
      entries := [m] + more;
      EntryAndMore(m, more);
      JoinAt(c, s, SpellEntry(m), 44, SpellEntries(more));
    } else {
      entries := [m];
      EntryAlone(m);
    }
  }

  lemma EntriesRead(c: seq<byte>, o: nat, depth: nat)
    requires IsText(c) && o + 1 < |c| && ParseMembers(c, o, depth).Some?
    ensures ParseMember(c, o, depth).Some?
    ensures var (m, q) := ParseMember(c, o, depth).value;
      var e := Skip(c, q);
      if c[e] == 44 then
        && e + 1 < |c| && ParseMembers(c, e, depth).Some?
        && ParseMembers(c, o, depth)
           == Some(([m] + ParseMembers(c, e, depth).value.0, ParseMembers(c, e, depth).value.1))
      else c[e] == 125 && ParseMembers(c, o, depth) == Some(([m], e))
  {
    hide Skip, ParseMember;
  }

  lemma EntryAndMore(e: Entry, more: seq<Entry>)
    requires more != []
    ensures SpellEntries([e] + more) == SpellEntry(e) + [44] + SpellEntries(more)
    ensures Members([e] + more) == [MemberOf(e)] + Members(more)
    ensures HeightOfMembers(Members([e] + more))
         == Max(Height(Value(e.item.value)), HeightOfMembers(Members(more)))
  {
    hide SpellEntry, MemberOf, Height;
    var entries := [e] + more;
    assert entries[1..] == more;
    HeightOfFirstMember(entries);
  }

  lemma EntryAlone(e: Entry)
    ensures SpellEntries([e]) == SpellEntry(e) && Members([e]) == [MemberOf(e)]
    ensures HeightOfMembers(Members([e])) == Height(Value(e.item.value))
  {
    hide SpellEntry, MemberOf, Height;
    assert Members([e][1..]) == [];
    HeightOfFirstMember([e]);
    NoItems();
  }

  lemma {:induction false} ObjectOf(c: seq<byte>, o: nat, depth: nat) returns (x: Spelled)
    requires IsText(c) && o < |c| && c[o] == 123 && depth <= 1000 && ParseObject(c, o, depth).Some?
    ensures Ok(x) && At(c, o, Spell(x)) && !x.Numeral? && depth + Height(Value(x)) <= 1000
    ensures var (members, e) := ParseObject(c, o, depth).value; Value(x) == Object(members) && e == o + |Spell(x)|
    decreases |c| - o, 0
  {
    hide At, Skip, ParseMembers, SpellEntries, OkEntry, HeightOfMembers, Members;
    SkippedIsWhite(c, o + 1);
    SkipTwice(c, o + 1);
    var first := Skip(c, o + 1);
    if c[first] == CLOSE_OBJECT {
      x := EmptyObject(c[o + 1..first]);
      BracketAt(c, o, c[o + 1..first], first);
      NoItems();
    } else {
      var entries := EntriesOf(c, first - 1, o + 1, depth + 1);
      x := FullObject(entries);
      EncloseAt(c, o, SpellEntries(entries), o + 1 + |SpellEntries(entries)|);
    }
  }

  // ----- The text as a whole -----

  // The text is white space, a spelling of the value and a rest; a number has
  // all the digits that are there, and the rest is white if it has to be.
  ghost predicate Spells(text: seq<byte>, requireEnd: bool, v: Json, gap: seq<byte>, x: Spelled, rest: seq<byte>) {
    && text == gap + Spell(x) + rest && White(gap) && Ok(x) && Clear(x, text, |gap|)
    && Value(x) == v && Height(v) <= 1000 && (requireEnd ==> White(rest))
  }

  // The terminator is no part of a number.
  lemma ClearTerminated(x: Spelled, text: seq<byte>, o: nat)
    requires Ok(x)
    ensures Clear(x, Terminated(text), o) <==> Clear(x, text, o)
  {
    hide Ok, OkParts, DecimalText;
    forall d: Decimal | OkDecimal(d)
      ensures At(Terminated(text), o, DecimalText(d)) <==> At(text, o, DecimalText(d))
    {
      NumberBytes(d);
      FirstOfDecimal(d);
      AtTerminated(text, o, DecimalText(d));
    }
    if x.Numeral? {
      OkNumeral(x);
    }
  }

  lemma OkNumeral(x: Spelled)
    requires Ok(x) && x.Numeral?
    ensures OkDecimal(x.d)
  {
  }

  lemma AtTerminated(text: seq<byte>, o: nat, r: seq<byte>)
    requires r != [] && r[|r| - 1] != 0
    ensures At(Terminated(text), o, r) <==> At(text, o, r)
  {
    var c := Terminated(text);
    if At(c, o, r) {
      AtIndex(c, o, r, |r| - 1);
    }
    if o + |r| <= |text| {
      assert c[o..o + |r|] == text[o..o + |r|];
    }
  }

  // Where the parts of the text stand in the C string.
  lemma SpelledParts(gap: seq<byte>, r: seq<byte>, rest: seq<byte>, c: seq<byte>)
    requires c == Terminated(gap + r + rest)
    ensures At(c, 0, gap) && At(c, |gap|, r) && |gap| + |r| < |c|
    ensures c[|gap| + |r|..|c| - 1] == rest
  {
    hide At;
    assert c == gap + r + (rest + [0]);
    AtWhole(c);
    AtSplit3(c, 0, gap, r, rest + [0]);
  }

  lemma SpelledParses(text: seq<byte>, requireEnd: bool, v: Json, gap: seq<byte>, x: Spelled, rest: seq<byte>)
    requires Spells(text, requireEnd, v, gap, x, rest)
    ensures Parse(text, requireEnd) == Some(v)
  {
    hide At, Spell, Value, Ok, Height, ParseValue, Skip, Clear, White;
    var c := Terminated(text);
    var e := |gap| + |Spell(x)|;
    SpelledParts(gap, Spell(x), rest, c);
    ClearTerminated(x, text, |gap|);
    FirstOfSpelled(x);
    AtIndex(c, |gap|, Spell(x), 0);
    SkipGap(gap, c, 0);
    ValueParses(x, c, |gap|, 0);
    SkipToEnd(c, e);
  }

  // All of the rest is white exactly if skipping it leads to the terminator.
  lemma {:induction false} SkipToEnd(c: seq<byte>, o: nat)
    requires IsText(c) && o < |c|
    ensures c[Skip(c, o)] == 0 <==> White(c[o..|c| - 1])
    decreases |c| - o
  {
    if o + 1 < |c| {
      assert c[o..|c| - 1] == [c[o]] + c[o + 1..|c| - 1];
      WhiteFirst(c[o], c[o + 1..|c| - 1]);
      if c[o] <= 32 {
        SkipToEnd(c, o + 1);
      }
    }
  }

  lemma WhiteFirst(b: byte, gap: seq<byte>)
    ensures White([b] + gap) <==> b <= 32 && White(gap)
  {
    var all := [b] + gap;
    assert all[0] == b && forall i :: 0 <= i < |gap| ==> gap[i] == all[i + 1];
  }

  lemma ParsedIsSpelled(text: seq<byte>, requireEnd: bool) returns (gap: seq<byte>, x: Spelled, rest: seq<byte>)
    requires Parse(text, requireEnd).Some?
    ensures Spells(text, requireEnd, Parse(text, requireEnd).value, gap, x, rest)
  {
    hide Spell, Value, Ok, Height, ParseValue, Skip, Clear;
    var c := Terminated(text);
    SkippedIsWhite(c, 0);
    var o := Skip(c, 0);
    x := ValueOf(c, o, 0);
    var e := o + |Spell(x)|;
    gap, rest := text[..o], text[e..];
    assert gap == c[0..o];
    StandsThere(c, o, Spell(x));
    assert text[o..e] == c[o..e];
    assert text == gap + Spell(x) + rest;
    ClearTerminated(x, text, o);
    if requireEnd {
      SkipToEnd(c, e);
      assert c[e..|c| - 1] == rest;
    }
  }

  // The parser accepts a text with a value exactly when it begins, behind white
  // space, with a spelling of that value, nested no deeper than 1000.
  lemma ParseExactly(text: seq<byte>, requireEnd: bool, v: Json)
    ensures Parse(text, requireEnd) == Some(v) <==> exists gap, x, rest :: Spells(text, requireEnd, v, gap, x, rest)
  {
    hide Spells, Parse;
    if Parse(text, requireEnd) == Some(v) {
      var gap, x, rest := ParsedIsSpelled(text, requireEnd);
    }
    forall gap, x, rest | Spells(text, requireEnd, v, gap, x, rest)
      ensures Parse(text, requireEnd) == Some(v)
    {
      SpelledParses(text, requireEnd, v, gap, x, rest);
    }
  }
}
