/**
 The parser: an offset that moves through the text, and loops that build the
 children of arrays and objects. Each method does what the grammar's function
 says of the position it starts from.
 */
module JsonParser {
  import opened Bytes
  import opened JsonText
  import G = JsonGrammar
  import Utf8

  class ParseBuffer {
    const content: seq<byte>
    var offset: nat
    var depth: nat

    ghost predicate Valid()
      reads this
    {
      G.IsText(content) && offset < |content|
    }

    // The text is a C string; its terminator belongs to the buffer.
    constructor (text: seq<byte>)
      ensures Valid() && content == Terminated(text) && offset == 0 && depth == 0
    {
      content, offset, depth := text + [0], 0, 0;
    }

    method SkipWhitespace()
      requires G.IsText(content) && offset <= |content|
      modifies this`offset
      ensures offset == G.Skip(content, old(offset))
    {
      while offset < |content| && content[offset] <= 32
        invariant offset <= |content| && G.Skip(content, offset) == G.Skip(content, old(offset))
        decreases |content| - offset
      {
        offset := offset + 1;
      }
      if offset == |content| {
        offset := offset - 1;
      }
    }

    // ----- Strings -----

    method ParseHex4(i: nat) returns (h: nat)
      requires i + 4 <= |content|
      ensures h == G.Hex4(content, i)
    {
      h := 0;
      var k := 0;
      while k < 4
        invariant 0 <= k <= 4
        invariant forall j :: i <= j < i + k ==> G.HexValue(content[j]) >= 0
        invariant k == 0 ==> h == 0
        invariant k == 1 ==> h == G.HexValue(content[i]) * 0x10
        invariant k == 2 ==> h == G.HexValue(content[i]) * 0x100 + G.HexValue(content[i + 1]) * 0x10
        invariant k == 3 ==> h == G.HexValue(content[i]) * 0x1000 + G.HexValue(content[i + 1]) * 0x100
                                  + G.HexValue(content[i + 2]) * 0x10
        invariant k == 4 ==> h == G.HexValue(content[i]) * 0x1000 + G.HexValue(content[i + 1]) * 0x100
                                  + G.HexValue(content[i + 2]) * 0x10 + G.HexValue(content[i + 3])
      {
        var b := content[i + k];
        if 48 <= b <= 57 {
          h := h + (b - 48);
        } else if 65 <= b <= 70 {
          h := h + 10 + (b - 65);
        } else if 97 <= b <= 102 {
          h := h + 10 + (b - 97);
        } else {
          return 0;
        }
        if k < 3 {
          h := h * 0x10;
        }
        k := k + 1;
      }
    }

    // utf16_literal_to_utf8; a length of 0 is a failure.
    method Utf16Literal(i: nat, end: nat) returns (utf8: seq<byte>, sequenceLength: nat)
      requires i <= end <= |content|
      ensures G.Utf16At(content, i, end).None? <==> sequenceLength == 0
      ensures sequenceLength != 0 ==>
        var u := G.Utf16At(content, i, end).value; sequenceLength == u.1 && utf8 == Utf8.Encode(u.0)
    {
      utf8, sequenceLength := [], 0;
      if end - i < 6 {
        return;
      }
      var firstCode := ParseHex4(i + 2);
      if 0xDC00 <= firstCode <= 0xDFFF {
        return;
      }
      var codepoint: nat;
      if 0xD800 <= firstCode <= 0xDBFF {
        var second := i + 6;
        if end - second < 6 {
          return;
        }
        if content[second] != BACKSLASH || content[second + 1] != 117 {
          return;
        }
        var secondCode := ParseHex4(second + 2);
        if secondCode < 0xDC00 || secondCode > 0xDFFF {
          return;
        }
        sequenceLength := 12;
        codepoint := 0x10000 + (firstCode % 0x400) * 0x400 + secondCode % 0x400;
      } else {
        sequenceLength := 6;
        codepoint := firstCode;
      }
      utf8 := EncodeUtf8(codepoint);
    }

    // Continuation bytes from the last to the second, then the first byte.
    method EncodeUtf8(codepoint: nat) returns (output: seq<byte>)
      requires codepoint <= 0x10FFFF
      ensures output == Utf8.Encode(codepoint)
    {
      var utf8Length, firstByteMark: nat := 1, 0;
      if codepoint < 0x80 {
      } else if codepoint < 0x800 {
        utf8Length, firstByteMark := 2, 0xC0;
      } else if codepoint < 0x10000 {
        utf8Length, firstByteMark := 3, 0xE0;
      } else {
        utf8Length, firstByteMark := 4, 0xF0;
      }
      output := [];
      var cp, position := codepoint, utf8Length - 1;
      while position > 0
        invariant 0 <= position < utf8Length && |output| == utf8Length - 1 - position
        invariant |output| == 0 ==> cp == codepoint
        invariant |output| == 1 ==> cp == codepoint / 0x40 && output == [0x80 + codepoint % 0x40]
        invariant |output| == 2 ==> cp == codepoint / 0x1000 &&
                                    output == [0x80 + codepoint / 0x40 % 0x40, 0x80 + codepoint % 0x40]
        invariant |output| == 3 ==> cp == codepoint / 0x40000 &&
                                    output == [0x80 + codepoint / 0x1000 % 0x40, 0x80 + codepoint / 0x40 % 0x40,
                                               0x80 + codepoint % 0x40]
      {
        output := [0x80 + cp % 0x40] + output;
        cp := cp / 0x40;
        position := position - 1;
      }
      output := [if utf8Length > 1 then firstByteMark + cp else cp] + output;
    }

    // The first pass of parse_string: to the closing quote.
    method FindQuote() returns (end: nat, ok: bool)
      requires Valid()
      ensures ok <==> G.ClosingQuote(content, offset + 1).Some?
      ensures ok ==> G.ClosingQuote(content, offset + 1) == Some(end)
    {
      end := offset + 1;
      while end < |content| && content[end] != QUOTE
        invariant G.ClosingQuote(content, end) == G.ClosingQuote(content, offset + 1)
        decreases |content| - end
      {
        if content[end] == BACKSLASH {
          if end + 1 >= |content| {
            return end, false;
          }
          end := end + 1;
        }
        end := end + 1;
      }
      ok := end < |content| && content[end] == QUOTE;
    }

    method ParseString() returns (ok: bool, output: seq<byte>)
      requires Valid()
      modifies this`offset
      ensures ok <==> G.ParseString(content, old(offset)).Some?
      ensures ok ==> G.ParseString(content, old(offset)) == Some((output, offset)) && Valid()
    {
      output := [];
      if content[offset] != QUOTE {
        return false, output;
      }
      var end;
      end, ok := FindQuote();
      if !ok {
        return;
      }
      output, ok := Unescape(end);
      if ok {
        offset := end;
        offset := offset + 1;
      }
    }

    // The second pass of parse_string.
    method Unescape(end: nat) returns (output: seq<byte>, ok: bool)
      requires Valid() && end < |content|
      ensures ok <==> G.Decode(content, offset + 1, end).Some?
      ensures ok ==> G.Decode(content, offset + 1, end) == Some(output)
    {
      output := [];
      var input := offset + 1;
      G.PrependNothing(G.Decode(content, input, end));
      while input < end
        invariant G.Decode(content, offset + 1, end) == G.Prepend(output, G.Decode(content, input, end))
        decreases end - input
      {
        ghost var before := output;
        var piece, sequenceLength := [], 2;
        if content[input] != BACKSLASH {
          piece, sequenceLength := [content[input]], 1;
        } else {
          var b := content[input + 1];
          if b == 98 {
            piece := [8];
          } else if b == 102 {
            piece := [12];
          } else if b == 110 {
            piece := [10];
          } else if b == 114 {
            piece := [13];
          } else if b == 116 {
            piece := [9];
          } else if b == 34 || b == 92 || b == 47 {
            piece := [b];
          } else if b == 117 {
            piece, sequenceLength := Utf16Literal(input, end);
            if sequenceLength == 0 {
              return output, false;
            }
          } else {
            return output, false;
          }
        }
        assert G.Decode(content, input, end) == G.Prepend(piece, G.Decode(content, input + sequenceLength, end));
        G.PrependTwice(before, piece, G.Decode(content, input + sequenceLength, end));
        output := output + piece;
        input := input + sequenceLength;
      }
      assert output + [] == output;
      ok := true;
    }

    // ----- Numbers -----

    // The copy that is handed to strtod.
    method CopyNumber() returns (number: seq<byte>)
      requires Valid()
      ensures number == G.NumberRun(content, offset, 63)
    {
      hide At;
      hide G.NumberRun;
      number := [];
      var i := 0;
      assert [] + G.NumberRun(content, offset, 63) == G.NumberRun(content, offset, 63);
      while i < 63 && offset + i < |content| && G.IsNumberByte(content[offset + i])
        invariant 0 <= i <= 63 && offset + i <= |content| && |number| == i
        invariant number + G.NumberRun(content, offset + i, 63 - i) == G.NumberRun(content, offset, 63)
      {
        NumberRunStep(content, offset + i, 63 - i);
        Assoc(number, [content[offset + i]], G.NumberRun(content, offset + i + 1, 63 - i - 1));
        number := number + [content[offset + i]];
        i := i + 1;
      }
      NumberRunEnd(content, offset + i, 63 - i);
      assert number + [] == number;
    }

    method ParseNumber() returns (ok: bool, text: seq<byte>)
      requires Valid()
      modifies this`offset
      ensures ok <==> G.ParseNumber(content, old(offset)).Some?
      ensures ok ==> G.ParseNumber(content, old(offset)) == Some((text, offset)) && Valid()
    {
      hide G.NumberRun;
      hide G.StrtodLength;
      hide At;
      var number := CopyNumber();
      var converted := G.StrtodLength(number);
      if converted == 0 {
        return false, [];
      }
      text := number[..converted];
      offset := offset + converted;
      ok := true;
    }

    // ----- Values -----

    method ParseValue() returns (ok: bool, item: Json)
      requires Valid()
      modifies this
      ensures ok <==> G.ParseValue(content, old(offset), old(depth)).Some?
      ensures ok ==> G.ParseValue(content, old(offset), old(depth)) == Some((item, offset))
      ensures ok ==> Valid() && depth == old(depth)
      decreases |content| - offset, 0
    {
      hide At;
      ok, item := true, Null;
      if At(content, offset, NULL_TEXT) {
        offset := offset + 4;
      } else if At(content, offset, FALSE_TEXT) {
        item := False;
        offset := offset + 5;
      } else if At(content, offset, TRUE_TEXT) {
        item := True;
        offset := offset + 4;
      } else if content[offset] == QUOTE {
        var s;
        ok, s := ParseString();
        item := String(s);
      } else if content[offset] == 45 || G.IsDigit(content[offset]) {
        var text;
        ok, text := ParseNumber();
        item := Number(if ok then text else []);
      } else if content[offset] == OPEN_ARRAY {
        var items;
        ok, items := ParseArray();
        item := Array(items);
      } else if content[offset] == OPEN_OBJECT {
        var members;
        ok, members := ParseObject();
        item := Object(members);
      } else {
        ok := false;
      }
    }

    method ParseArray() returns (ok: bool, items: seq<Json>)
      requires Valid() && content[offset] == OPEN_ARRAY
      modifies this
      ensures ok <==> G.ParseArray(content, old(offset), old(depth)).Some?
      ensures ok ==> G.ParseArray(content, old(offset), old(depth)) == Some((items, offset))
      ensures ok ==> Valid() && depth == old(depth)
      decreases |content| - offset - 1, 2
    {
      hide G.ParseItems;
      hide G.Skip;
      items := [];
      if depth >= G.NESTING_LIMIT {
        return false, items;
      }
      depth := depth + 1;
      offset := offset + 1;
      SkipWhitespace();
      if content[offset] != CLOSE_ARRAY {
        offset := offset - 1;
        ok, items := ParseItems();
        if !ok {
          return;
        }
      }
      depth := depth - 1;
      offset := offset + 1;
      ok := true;
    }

    // The loop of parse_array and the check of the closing bracket.
    method ParseItems() returns (ok: bool, items: seq<Json>)
      requires Valid() && offset + 1 < |content|
      modifies this
      ensures ok <==> G.ParseItems(content, old(offset), old(depth)).Some?
      ensures ok ==> G.ParseItems(content, old(offset), old(depth)) == Some((items, offset))
      ensures ok ==> Valid() && offset + 1 < |content| && depth == old(depth)
      decreases |content| - offset - 1, 1
    {
      hide G.ParseItems;
      hide G.ParseValue;
      hide G.Skip;
      items := [];
      PrependNothing(G.ParseItems(content, offset, depth));
      while true
        invariant old(offset) <= offset && offset + 1 < |content| && depth == old(depth)
        invariant G.ParseItems(content, old(offset), old(depth)) == Prepend(items, G.ParseItems(content, offset, depth))
        decreases |content| - offset
      {
        ghost var start, before := offset, items;
        var item;
        offset := offset + 1;
        SkipWhitespace();
        ok, item := ParseValue();
        ItemsStep(content, start, old(depth), before, ok, item, offset);
        if !ok {
          return;
        }
        SkipWhitespace();
        items := items + [item];
        if content[offset] != COMMA {
          break;
        }
      }
      ok := content[offset] == CLOSE_ARRAY;
    }

    method ParseObject() returns (ok: bool, members: seq<Member>)
      requires Valid() && content[offset] == OPEN_OBJECT
      modifies this
      ensures ok <==> G.ParseObject(content, old(offset), old(depth)).Some?
      ensures ok ==> G.ParseObject(content, old(offset), old(depth)) == Some((members, offset))
      ensures ok ==> Valid() && depth == old(depth)
      decreases |content| - offset - 1, 3
    {
      hide G.ParseMembers;
      hide G.Skip;
      members := [];
      if depth >= G.NESTING_LIMIT {
        return false, members;
      }
      depth := depth + 1;
      offset := offset + 1;
      SkipWhitespace();
      if content[offset] != CLOSE_OBJECT {
        offset := offset - 1;
        ok, members := ParseMembers();
        if !ok {
          return;
        }
      }
      depth := depth - 1;
      offset := offset + 1;
      ok := true;
    }

    // The name, the colon and the value of one member.
    method ParseMember() returns (ok: bool, m: Member)
      requires Valid() && offset + 1 < |content|
      modifies this
      ensures ok <==> G.ParseMember(content, old(offset), old(depth)).Some?
      ensures ok ==> G.ParseMember(content, old(offset), old(depth)) == Some((m, offset))
      ensures ok ==> Valid() && depth == old(depth)
      decreases |content| - offset - 1, 1
    {
      hide G.ParseValue;
      hide G.ParseString;
      hide G.Skip;
      var key, value;
      m := Member([], Null);
      offset := offset + 1;
      SkipWhitespace();
      ok, key := ParseString();
      if !ok {
        return;
      }
      SkipWhitespace();
      if content[offset] != COLON {
        return false, m;
      }
      offset := offset + 1;
      SkipWhitespace();
      ok, value := ParseValue();
      m := Member(key, value);
    }

    // The loop of parse_object and the check of the closing brace.
    method ParseMembers() returns (ok: bool, members: seq<Member>)
      requires Valid() && offset + 1 < |content|
      modifies this
      ensures ok <==> G.ParseMembers(content, old(offset), old(depth)).Some?
      ensures ok ==> G.ParseMembers(content, old(offset), old(depth)) == Some((members, offset))
      ensures ok ==> Valid() && offset + 1 < |content| && depth == old(depth)
      decreases |content| - offset - 1, 2
    {
      hide G.ParseMembers;
      hide G.ParseMember;
      hide G.Skip;
      members := [];
      PrependNothing(G.ParseMembers(content, offset, depth));
      while true
        invariant old(offset) <= offset && offset + 1 < |content| && depth == old(depth)
        invariant G.ParseMembers(content, old(offset), old(depth))
          == Prepend(members, G.ParseMembers(content, offset, depth))
        decreases |content| - offset, 1
      {
        ghost var start, before := offset, members;
        var m;
        ok, m := ParseMember();
        MembersStep(content, start, old(depth), before, ok, m, offset);
        if !ok {
          return;
        }
        SkipWhitespace();
        members := members + [m];
        if content[offset] != COMMA {
          break;
        }
      }
      ok := content[offset] == CLOSE_OBJECT;
    }
  }

  lemma NumberRunStep(c: seq<byte>, o: nat, room: nat)
    requires o < |c| && room > 0 && G.IsNumberByte(c[o])
    ensures G.NumberRun(c, o, room) == [c[o]] + G.NumberRun(c, o + 1, room - 1)
  {
  }

  lemma NumberRunEnd(c: seq<byte>, o: nat, room: nat)
    requires o <= |c| && (room == 0 || o == |c| || !G.IsNumberByte(c[o]))
    ensures G.NumberRun(c, o, room) == []
  {
  }

  // ----- One pass of the loops -----

  ghost function Prepend<T>(xs: seq<T>, r: Option<(seq<T>, nat)>): Option<(seq<T>, nat)> {
    if r.None? then None else Some((xs + r.value.0, r.value.1))
  }

  lemma PrependNothing<T>(r: Option<(seq<T>, nat)>)
    ensures Prepend([], r) == r
  {
    if r.Some? {
      assert [] + r.value.0 == r.value.0;
    }
  }

  // What the byte behind an item makes of the items so far.
  ghost function AfterItem(c: seq<byte>, next: nat, depth: nat, done: seq<Json>): Option<(seq<Json>, nat)>
    requires G.IsText(c) && next < |c|
  {
    if c[next] == COMMA then Prepend(done, G.ParseItems(c, next, depth))
    else if c[next] == CLOSE_ARRAY then Some((done, next))
    else None
  }

  ghost function AfterMember(c: seq<byte>, next: nat, depth: nat, done: seq<Member>): Option<(seq<Member>, nat)>
    requires G.IsText(c) && next < |c|
  {
    if c[next] == COMMA then Prepend(done, G.ParseMembers(c, next, depth))
    else if c[next] == CLOSE_OBJECT then Some((done, next))
    else None
  }

  lemma ItemsStep(c: seq<byte>, o: nat, depth: nat, before: seq<Json>, ok: bool, v: Json, e: nat)
    requires G.IsText(c) && o + 1 < |c|
    requires G.ParseValue(c, G.Skip(c, o + 1), depth).Some? <==> ok
    requires ok ==> G.ParseValue(c, G.Skip(c, o + 1), depth) == Some((v, e))
    ensures !ok ==> Prepend(before, G.ParseItems(c, o, depth)).None?
    ensures ok ==> Prepend(before, G.ParseItems(c, o, depth)) == AfterItem(c, G.Skip(c, e), depth, before + [v])
  {
    hide G.ParseValue;
    hide G.Skip;
    if ok {
      var next := G.Skip(c, e);
      if c[next] == COMMA {
        var r := G.ParseItems(c, next, depth);
        if r.Some? {
          Assoc(before, [v], r.value.0);
        }
      }
    }
  }

  lemma MembersStep(c: seq<byte>, o: nat, depth: nat, before: seq<Member>, ok: bool, m: Member, e: nat)
    requires G.IsText(c) && o + 1 < |c|
    requires G.ParseMember(c, o, depth).Some? <==> ok
    requires ok ==> G.ParseMember(c, o, depth) == Some((m, e))
    ensures !ok ==> Prepend(before, G.ParseMembers(c, o, depth)).None?
    ensures ok ==> Prepend(before, G.ParseMembers(c, o, depth)) == AfterMember(c, G.Skip(c, e), depth, before + [m])
  {
    if ok {
      var next := G.Skip(c, e);
      if c[next] == COMMA {
        var r := G.ParseMembers(c, next, depth);
        if r.Some? {
          Assoc(before, [m], r.value.0);
        }
      }
    }
  }

  // cJSON_ParseWithOpts
  method Parse(text: seq<byte>, requireNullTerminated: bool) returns (item: Option<Json>)
    ensures item == G.Parse(text, requireNullTerminated)
  {
    var buffer := new ParseBuffer(text);
    buffer.SkipWhitespace();
    var ok, v := buffer.ParseValue();
    if !ok {
      return None;
    }
    if requireNullTerminated {
      buffer.SkipWhitespace();
      if buffer.content[buffer.offset] != 0 {
        return None;
      }
    }
    return Some(v);
  }
}
