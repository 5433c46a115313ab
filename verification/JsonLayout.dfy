/**
 What a print looks like: the lines, tabs and separators of a formatted object,
 the separators of an array, and each escape, written down byte by byte.
 */
module JsonLayout {
  import opened Bytes
  import opened JsonText

  // The text of one byte of a string.
  predicate Escapes(b: byte, r: seq<byte>) {
    if b == 34 || b == 92 then r == [92, b]     // quote and backslash
    else if b == 8 then r == [92, 98]           // \b
    else if b == 9 then r == [92, 116]          // \t
    else if b == 10 then r == [92, 110]         // \n
    else if b == 12 then r == [92, 102]         // \f
    else if b == 13 then r == [92, 114]         // \r
    else if b < 16 then |r| == 6 && r[..5] == [92, 117, 48, 48, 48] && LowHex(r[5], b)
    else if b < 32 then |r| == 6 && r[..5] == [92, 117, 48, 48, 49] && LowHex(r[5], b - 16)
    else r == [b]
  }

  // A hexadecimal digit, in lower case.
  predicate LowHex(letter: byte, d: nat) {
    if d < 10 then letter == 48 + d else letter == 87 + d
  }

  lemma EscapeOf(b: byte)
    ensures Escapes(b, EscapedByte(b))
  {
  }

  // A string is printed byte by byte between quotes.
  lemma {:induction false} StringLayout(s: seq<byte>, b: byte)
    ensures RenderString([]) == [34, 34]
    ensures RenderString([b] + s) == [34] + EscapedByte(b) + RenderString(s)[1..]
  {
    hide EscapedByte;
    assert ([b] + s)[1..] == s;
    assert RenderString(s)[1..] == Escaped(s) + [34];
    assert [34] + (EscapedByte(b) + Escaped(s)) + [34] == [34] + EscapedByte(b) + (Escaped(s) + [34]);
  }

  function Join(parts: seq<seq<byte>>, separator: seq<byte>): seq<byte> {
    if parts == [] then []
    else if |parts| == 1 then parts[0]
    else parts[0] + separator + Join(parts[1..], separator)
  }

  function Tabs(n: nat): seq<byte> {
    if n == 0 then [] else [9] + Tabs(n - 1)
  }

  // Arrays stand in one line, with a comma and a blank between items. Of an
  // object each member has its line, with a tab for each object and array
  // around it, and a tab behind the colon.
  function Formatted(v: Json, depth: nat): seq<byte>
    decreases v, 1
  {
    match v
    case Array(items) => [91] + Join(FormattedItems(items, depth + 1), [44, 32]) + [93]
    case Object(members) =>
      var lines := FormattedMembers(members, depth + 1);
      [123, 10] + Join(lines, [44, 10]) + (if lines == [] then [] else [10]) + Tabs(depth) + [125]
    case _ => Single(v)
  }

  function FormattedItems(items: seq<Json>, depth: nat): (parts: seq<seq<byte>>)
    ensures |parts| == |items|
    decreases items, 0
  {
    if items == [] then [] else [Formatted(items[0], depth)] + FormattedItems(items[1..], depth)
  }

  function FormattedMembers(members: seq<Member>, depth: nat): (parts: seq<seq<byte>>)
    ensures |parts| == |members|
    decreases members, 0
  {
    if members == [] then []
    else
      var m := members[0];
      [Tabs(depth) + RenderString(m.key) + [58, 9] + Formatted(m.value, depth)] + FormattedMembers(members[1..], depth)
  }

  function Unformatted(v: Json): seq<byte>
    decreases v, 1
  {
    match v
    case Array(items) => [91] + Join(UnformattedItems(items), [44]) + [93]
    case Object(members) => [123] + Join(UnformattedMembers(members), [44]) + [125]
    case _ => Single(v)
  }

  function UnformattedItems(items: seq<Json>): (parts: seq<seq<byte>>)
    ensures |parts| == |items|
    decreases items, 0
  {
    if items == [] then [] else [Unformatted(items[0])] + UnformattedItems(items[1..])
  }

  function UnformattedMembers(members: seq<Member>): (parts: seq<seq<byte>>)
    ensures |parts| == |members|
    decreases members, 0
  {
    if members == [] then []
    else
      var m := members[0];
      [RenderString(m.key) + [58] + Unformatted(m.value)] + UnformattedMembers(members[1..])
  }

  // The words null, false and true, numbers, raw text and strings.
  function Single(v: Json): seq<byte> {
    match v
    case False => [102, 97, 108, 115, 101]
    case True => [116, 114, 117, 101]
    case Number(text) => text
    case Raw(raw) => raw
    case String(s) => RenderString(s)
    case _ => [110, 117, 108, 108]
  }

  lemma {:induction false} TabsRepeat(n: nat)
    ensures Tabs(n) == Extra(true, TAB, n)
  {
    if n > 0 {
      TabsRepeat(n - 1);
    }
  }

  lemma ExtraOne(fmt: bool, b: byte)
    ensures Extra(fmt, b, 1) == if fmt then [b] else []
  {
  }

  // The formatted print.
  lemma {:induction false} FormattedPrint(v: Json, depth: nat)
    ensures Render(v, true, depth) == Formatted(v, depth)
    decreases v, 1
  {
    hide RenderItems, RenderMembers, RenderString, Extra, Tabs;
    match v {
      case Array(items) => FormattedItemsPrint(items, depth + 1);
      case Object(members) =>
        FormattedMembersPrint(members, depth + 1);
        TabsRepeat(depth);
        ExtraOne(true, NEWLINE);
        ObjectLayout(Join(FormattedMembers(members, depth + 1), [44, 10]), members != [], Tabs(depth));
      case _ =>
    }
  }

  lemma ObjectLayout(body: seq<byte>, any: bool, tabs: seq<byte>)
    requires !any ==> body == []
    ensures var lines := body + if any then [10] else [];
      [123, 10] + body + (if any then [10] else []) + tabs + [125] == ([123] + [10]) + lines + (tabs + [125])
  {
  }

  lemma {:induction false} FormattedItemsPrint(items: seq<Json>, depth: nat)
    ensures RenderItems(items, true, depth) == Join(FormattedItems(items, depth), [44, 32])
    decreases items, 0
  {
    hide Render, Formatted, Extra;
    if items != [] {
      FormattedPrint(items[0], depth);
      FormattedItemsPrint(items[1..], depth);
      ExtraOne(true, SPACE);
      assert FormattedItems(items, depth)[1..] == FormattedItems(items[1..], depth);
    }
  }

  // Every line but the last ends with a comma.
  lemma {:induction false} FormattedMembersPrint(members: seq<Member>, depth: nat)
    ensures RenderMembers(members, true, depth)
         == Join(FormattedMembers(members, depth), [44, 10]) + if members == [] then [] else [10]
    decreases members, 0
  {
    hide Render, RenderPair, RenderString, Formatted, Extra, Tabs;
    if members != [] {
      var m, more := members[0], |members| > 1;
      var line, rest := Tabs(depth) + RenderString(m.key) + [58, 9] + Formatted(m.value, depth), members[1..];
      FormattedPairPrint(m, depth);
      FormattedMembersPrint(rest, depth);
      ExtraOne(true, NEWLINE);
      assert FormattedMembers(members, depth)[1..] == FormattedMembers(rest, depth);
      if more {
        Assoc(line + [44, 10], Join(FormattedMembers(rest, depth), [44, 10]), [10]);
        assert [44] + [10] == [44, 10];
      } else {
        assert rest == [];
        assert line + ([] + [10]) + [] == line + [10];
      }
    }
  }

  lemma {:induction false} FormattedPairPrint(m: Member, depth: nat)
    ensures RenderPair(m, true, depth)
         == Tabs(depth) + RenderString(m.key) + [58, 9] + Formatted(m.value, depth)
    decreases m, 2
  {
    hide Render, RenderString, Formatted, Extra, Tabs;
    FormattedPrint(m.value, depth);
    TabsRepeat(depth);
    ExtraOne(true, TAB);
    assert [58] + [9] == [58, 9];
  }

  // The unformatted print, at any depth.
  lemma {:induction false} UnformattedPrint(v: Json, depth: nat)
    ensures Render(v, false, depth) == Unformatted(v)
    decreases v, 1
  {
    hide RenderItems, RenderMembers, RenderString, Join;
    match v {
      case Array(items) => UnformattedItemsPrint(items, depth + 1);
      case Object(members) =>
        UnformattedMembersPrint(members, depth + 1);
        assert [123] + [] == [123] && [] + [125] == [125];
      case _ =>
    }
  }

  lemma {:induction false} UnformattedItemsPrint(items: seq<Json>, depth: nat)
    ensures RenderItems(items, false, depth) == Join(UnformattedItems(items), [44])
    decreases items, 0
  {
    hide Render, Unformatted;
    if items != [] {
      UnformattedPrint(items[0], depth);
      UnformattedItemsPrint(items[1..], depth);
      assert [44] + [] == [44];
      assert UnformattedItems(items)[1..] == UnformattedItems(items[1..]);
    }
  }

  lemma {:induction false} UnformattedMembersPrint(members: seq<Member>, depth: nat)
    ensures RenderMembers(members, false, depth) == Join(UnformattedMembers(members), [44])
    decreases members, 0
  {
    hide Render, RenderPair, RenderString, Unformatted;
    if members != [] {
      var m, rest := members[0], members[1..];
      var line := RenderString(m.key) + [58] + Unformatted(m.value);
      UnformattedPairPrint(m, depth);
      UnformattedMembersPrint(rest, depth);
      assert UnformattedMembers(members)[1..] == UnformattedMembers(rest);
      if |members| > 1 {
        assert [44] + [] == [44];
      } else {
        assert rest == [];
        assert line + ([] + []) + [] == line;
      }
    }
  }

  lemma {:induction false} UnformattedPairPrint(m: Member, depth: nat)
    ensures RenderPair(m, false, depth) == RenderString(m.key) + [58] + Unformatted(m.value)
    decreases m, 2
  {
    hide Render, RenderString, Unformatted;
    UnformattedPrint(m.value, depth);
    assert [] + RenderString(m.key) == RenderString(m.key) && [58] + [] == [58];
  }
}
