/**
 The printer over a growing buffer. Every print function leaves its text, with
 a terminator behind it, at the old offset; the offset itself is moved later by
 looking for the terminator.
 */
module JsonPrinter {
  import opened Bytes
  import opened JsonText
  import opened JsonStrings

  const INT_MAX := 0x7fff_ffff

  class PrintBuffer {
    var buffer: array<byte>
    var length: nat
    var offset: nat
    var depth: nat
    const noalloc: bool
    const format: bool

    // A length of 0 stands for a buffer whose size has not been recorded.
    ghost predicate Valid()
      reads this
    {
      length <= INT_MAX && ((length == 0 && offset == 0) || (length == buffer.Length && offset < length))
    }

    // The most bytes the buffer can come to hold.
    ghost function Room(): nat
      reads this`length
    {
      if noalloc then length else INT_MAX
    }

    // The text printed so far.
    ghost function Done(): seq<byte>
      requires Valid()
      reads this, buffer
    {
      buffer[..offset]
    }

    // `text` and a terminator stand behind `before`; the offset may be anywhere
    // in the text.
    ghost predicate Pending(before: seq<byte>, text: seq<byte>)
      reads this, buffer
    {
      && length == buffer.Length <= INT_MAX
      && |before| + |text| < length
      && buffer[..|before| + |text| + 1] == before + text + [0]
      && |before| <= offset <= |before| + |text|
    }

    // Text already passed by the offset may count as pending again.
    lemma PendingMore(before: seq<byte>, text: seq<byte>, more: seq<byte>)
      requires Pending(before + text, more)
      ensures Pending(before, text + more)
    {
      Assoc(before, text, more);
    }

    constructor (buffer: array<byte>, length: nat, noalloc: bool, format: bool)
      requires length <= INT_MAX && (length == 0 || length == buffer.Length)
      ensures Valid() && Done() == [] && depth == 0
      ensures this.buffer == buffer && this.length == length && this.noalloc == noalloc && this.format == format
    {
      this.buffer, this.length, this.noalloc, this.format := buffer, length, noalloc, format;
      offset, depth := 0, 0;
    }

    // Makes room for `needed` bytes and a terminator behind the offset.
    method Ensure(needed: nat) returns (ok: bool)
      requires Valid()
      modifies this`buffer, this`length
      ensures ok ==> Valid() && length == buffer.Length && offset + needed < length
      ensures ok ==> Done() == old(Done())
      ensures (buffer == old(buffer) || (fresh(buffer) && !noalloc)) && Room() == old(Room())
      ensures ok <==> offset + needed + 1 <= Room()
    {
      if length > 0 && offset >= length {
        return false;
      }
      if needed > INT_MAX {
        return false;
      }
      var total := needed + offset + 1;
      if total <= length {
        return true;
      }
      if noalloc {
        return false;
      }
      var newsize := 0;
      if total > INT_MAX / 2 {
        if total <= INT_MAX {
          newsize := INT_MAX;
        } else {
          return false;
        }
      } else {
        newsize := total * 2;
      }
      var newbuffer := new byte[newsize];
      var kept := if buffer.Length < newsize then buffer.Length else newsize;
      forall i | 0 <= i < kept {
        newbuffer[i] := buffer[i];
      }
      assert newbuffer[..offset] == buffer[..offset];
      length := newsize;
      buffer := newbuffer;
      ok := true;
    }

    // Stores `text` at position `at` of the buffer.
    method Write(at: nat, text: seq<byte>)
      requires at + |text| <= buffer.Length
      modifies buffer
      ensures buffer[..at + |text|] == old(buffer[..at]) + text
    {
      for i := 0 to |text|
        invariant buffer[..at + i] == old(buffer[..at]) + text[..i]
      {
        buffer[at + i] := text[i];
        assert text[..i + 1] == text[..i] + [text[i]];
        assert buffer[..at + i + 1] == buffer[..at + i] + [text[i]];
      }
      assert text[..|text|] == text;
    }

    // Prints a fragment and moves the offset behind it at once.
    method Append(needed: nat, text: seq<byte>) returns (ok: bool)
      requires Valid() && |text| <= needed
      modifies this`buffer, this`length, this`offset, buffer
      ensures ok ==> Valid() && Done() == old(Done()) + text && length == buffer.Length
      ensures (buffer == old(buffer) || (fresh(buffer) && !noalloc)) && Room() == old(Room())
      ensures ok <==> old(offset) + needed + 1 <= Room()
    {
      ok := Ensure(needed);
      if ok {
        Write(offset, text);
        offset := offset + |text|;
      }
    }

    // Prints a fragment and a terminator and leaves the offset where it was.
    method Put(needed: nat, text: seq<byte>) returns (ok: bool)
      requires Valid() && |text| <= needed
      modifies this`buffer, this`length, buffer
      ensures ok ==> Pending(old(Done()), text)
      ensures (buffer == old(buffer) || (fresh(buffer) && !noalloc)) && Room() == old(Room())
      ensures ok <==> offset + needed + 1 <= Room()
    {
      ok := Ensure(needed);
      if ok {
        Write(offset, text + [0]);
        assert buffer[..offset] + (text + [0]) == buffer[..offset] + text + [0];
      }
    }

    // Moves the offset to the terminator behind the pending text.
    method UpdateOffset(ghost before: seq<byte>, ghost text: seq<byte>)
      requires Pending(before, text) && NulFree(text)
      modifies this`offset
      ensures Valid() && Done() == before + text
    {
      ghost var end := |before| + |text|;
      ghost var all := before + text + [0];
      var n := 0;
      assert forall k :: |before| <= k <= end ==> buffer[k] == buffer[..end + 1][k] == all[k];
      while buffer[offset + n] != 0
        invariant offset + n <= end
        decreases end - n
      {
        n := n + 1;
      }
      assert offset + n == end;
      offset := offset + n;
      assert buffer[..end] == buffer[..end + 1][..end];
    }

    // ----- Strings -----

    // First pass: how many bytes escaping adds.
    method CountEscapes(input: seq<byte>) returns (n: nat)
      ensures n + |input| == |Escaped(input)|
    {
      n := 0;
      var i := 0;
      assert input[0..] == input;
      while i < |input|
        invariant 0 <= i <= |input|
        invariant n + i + |Escaped(input[i..])| == |Escaped(input)|
      {
        assert input[i..][1..] == input[i + 1..];
        var b := input[i];
        if b == 34 || b == 92 || b == 8 || b == 12 || b == 10 || b == 13 || b == 9 {
          n := n + 1;
        } else if b < 32 {
          n := n + 5;
        }
        i := i + 1;
      }
    }

    method EscapeOne(b: byte) returns (piece: seq<byte>)
      ensures piece == EscapedByte(b)
    {
      if b > 31 && b != 34 && b != 92 {
        piece := [b];
      } else if EscapeLetter(b) != 0 {
        piece := [BACKSLASH, EscapeLetter(b)];
      } else {
        piece := [BACKSLASH, 117, 48, 48, HexDigit(b / 16), HexDigit(b % 16)];
      }
    }

    // Second pass: the escaped bytes, from position `at` on.
    method WriteEscaped(input: seq<byte>, at: nat)
      requires at + |Escaped(input)| <= buffer.Length
      modifies buffer
      ensures buffer[..at + |Escaped(input)|] == old(buffer[..at]) + Escaped(input)
    {
      hide EscapedByte;
      ghost var before := buffer[..at];
      var i, out := 0, at;
      assert input[0..] == input;
      while i < |input|
        invariant 0 <= i <= |input| && at <= out
        invariant out + |Escaped(input[i..])| == at + |Escaped(input)|
        invariant buffer[..out] + Escaped(input[i..]) == before + Escaped(input)
      {
        assert input[i..][1..] == input[i + 1..];
        ghost var done, rest := buffer[..out], Escaped(input[i + 1..]);
        var piece := EscapeOne(input[i]);
        Assoc(done, piece, rest);
        Write(out, piece);
        out := out + |piece|;
        i := i + 1;
      }
      assert buffer[..out] + [] == buffer[..out];
    }

    // print_string_ptr
    method PrintString(input: seq<byte>) returns (ok: bool)
      requires Valid()
      modifies this`buffer, this`length, buffer
      ensures ok ==> Pending(old(Done()), RenderString(input))
      ensures (buffer == old(buffer) || (fresh(buffer) && !noalloc)) && Room() == old(Room())
      ensures ok <==> offset + |RenderString(input)| + 2 <= Room()
    {
      var escapes := CountEscapes(input);
      var outputLength := |input| + escapes;
      ok := Ensure(outputLength + 3);
      if !ok {
        return;
      }
      FillString(input, escapes);
    }

    // What print_string_ptr writes once the room is there.
    method FillString(input: seq<byte>, escapes: nat)
      requires Valid() && length == buffer.Length && offset + |RenderString(input)| < length
      requires escapes + |input| == |Escaped(input)|
      modifies buffer
      ensures Pending(old(Done()), RenderString(input))
    {
      hide Escaped;
      hide RenderString;
      ghost var before := Done();
      LiteralLength(input);
      Write(offset, [QUOTE]);
      if escapes == 0 {
        NothingEscaped(input);
        Write(offset + 1, input);
      } else {
        WriteEscaped(input, offset + 1);
      }
      Write(offset + |input| + escapes + 1, [QUOTE, 0]);
      LiteralText(before, input);
    }

    // print_number: the only function that moves the offset itself.
    method PrintNumber(text: seq<byte>) returns (ok: bool)
      requires Valid() && |text| <= 25
      modifies this`buffer, this`length, this`offset, buffer
      ensures ok ==> Pending(old(Done()), text)
      ensures (buffer == old(buffer) || (fresh(buffer) && !noalloc)) && Room() == old(Room())
      ensures ok <==> old(offset) + |text| + 1 <= Room()
    {
      ok := Put(|text|, text);
      if ok {
        offset := offset + |text|;
      }
    }

    // ----- Values -----

    method PrintValue(v: Json) returns (ok: bool)
      requires Valid() && CStrings(v)
      modifies this`buffer, this`length, this`offset, this`depth, buffer
      ensures ok ==> Pending(old(Done()), Render(v, format, old(depth))) && depth == old(depth)
      ensures (buffer == old(buffer) || (fresh(buffer) && !noalloc)) && Room() == old(Room())
      ensures ok <==> old(offset) + |Render(v, format, old(depth))| + Spare(v) <= Room()
      decreases v, 1
    {
      hide RenderItems, RenderMembers, RenderString, Escaped;
      match v {
        case Null => ok := Put(5, NULL_TEXT);
        case False => ok := Put(6, FALSE_TEXT);
        case True => ok := Put(5, TRUE_TEXT);
        case Number(text) => ok := PrintNumber(text);
        case Raw(raw) => ok := Put(|raw| + 1, raw);
        case String(s) => ok := PrintString(s);
        case Array(items) => ok := PrintArray(items);
        case Object(members) => ok := PrintObject(members);
      }
    }

    method PrintArray(items: seq<Json>) returns (ok: bool)
      requires Valid() && CStrings(Array(items))
      modifies this`buffer, this`length, this`offset, this`depth, buffer
      ensures ok ==> Pending(old(Done()), Render(Array(items), format, old(depth))) && depth == old(depth)
      ensures (buffer == old(buffer) || (fresh(buffer) && !noalloc)) && Room() == old(Room())
      ensures ok <==> old(offset) + |Render(Array(items), format, old(depth))| + 2 <= Room()
      decreases items, 1
    {
      hide Render;
      hide RenderItems;
      ArrayText(items, format, depth);
      ghost var before := Done();
      ok := Append(1, [OPEN_ARRAY]);
      if !ok {
        return;
      }
      depth := depth + 1;
      ok := PrintItems(items);
      if !ok {
        return;
      }
      Assoc(before, [OPEN_ARRAY], RenderItems(items, format, depth));
      ok := Close(2, before, [OPEN_ARRAY] + RenderItems(items, format, depth), [CLOSE_ARRAY]);
    }

    // The end of print_array and print_object.
    method Close(needed: nat, ghost before: seq<byte>, ghost text: seq<byte>, close: seq<byte>) returns (ok: bool)
      requires Valid() && |close| <= needed && depth > 0 && Done() == before + text
      modifies this`buffer, this`length, this`depth, buffer
      ensures ok ==> Pending(before, text + close) && depth == old(depth) - 1
      ensures (buffer == old(buffer) || (fresh(buffer) && !noalloc)) && Room() == old(Room())
      ensures ok <==> offset + needed + 1 <= Room()
    {
      ok := Put(needed, close);
      if ok {
        PendingMore(before, text, close);
      }
      depth := depth - 1;
    }

    // The loop of print_array.
    method PrintItems(items: seq<Json>) returns (ok: bool)
      requires Valid() && forall i :: 0 <= i < |items| ==> CStrings(items[i])
      modifies this`buffer, this`length, this`offset, this`depth, buffer
      ensures ok ==> Valid() && Done() == old(Done()) + RenderItems(items, format, depth) && depth == old(depth)
      ensures (buffer == old(buffer) || (fresh(buffer) && !noalloc)) && Room() == old(Room())
      ensures old(offset) + |RenderItems(items, format, old(depth))| + 2 <= Room() ==> ok
      decreases items, 0, |items| + 1
    {
      hide Render;
      hide RenderItems;
      ghost var whole := Done() + RenderItems(items, format, depth);
      ok := true;
      var i := 0;
      assert items[0..] == items;
      while i < |items|
        invariant 0 <= i <= |items| && depth == old(depth)
        invariant Valid() && ok && Done() + RenderItems(items[i..], format, depth) == whole
        invariant (buffer == old(buffer) || (fresh(buffer) && !noalloc)) && Room() == old(Room())
      {
        FirstItem(items, i, format, depth);
        Assoc(Done(), ItemText(items, i, format, depth), RenderItems(items[i + 1..], format, depth));
        ok := PrintItem(items, i);
        if !ok {
          return;
        }
        i := i + 1;
      }
      assert items[i..] == [];
      NoItems(format, depth);
      assert Done() + [] == Done();
    }

    // One pass of print_array's loop: an item and the separator behind it.
    method PrintItem(items: seq<Json>, i: nat) returns (ok: bool)
      requires Valid() && i < |items| && CStrings(items[i])
      modifies this`buffer, this`length, this`offset, this`depth, buffer
      ensures ok ==> Valid() && Done() == old(Done()) + ItemText(items, i, format, depth) && depth == old(depth)
      ensures (buffer == old(buffer) || (fresh(buffer) && !noalloc)) && Room() == old(Room())
      ensures old(offset) + |ItemText(items, i, format, old(depth))| + 2 <= Room() ==> ok
      decreases items, 0, i
    {
      hide Render;
      ghost var done, text := Done(), Render(items[i], format, depth);
      ok := PrintValue(items[i]);
      if !ok {
        return;
      }
      RenderedNulFree(items[i], format, depth);
      UpdateOffset(done, text);
      if i + 1 < |items| {
        var separator := [COMMA] + Extra(format, SPACE, 1);
        ok := Append(if format then 3 else 2, separator);
        Assoc(done, text, separator);
      } else {
        assert text + [] == text;
      }
    }

    method PrintObject(members: seq<Member>) returns (ok: bool)
      requires Valid() && CStrings(Object(members))
      modifies this`buffer, this`length, this`offset, this`depth, buffer
      ensures ok ==> Pending(old(Done()), Render(Object(members), format, old(depth))) && depth == old(depth)
      ensures (buffer == old(buffer) || (fresh(buffer) && !noalloc)) && Room() == old(Room())
      ensures ok <==> old(offset) + |Render(Object(members), format, old(depth))| + 2 <= Room()
      decreases members, 1
    {
      hide Render;
      hide RenderMembers;
      ObjectText(members, format, depth);
      ghost var before, open := Done(), [OPEN_OBJECT] + Extra(format, NEWLINE, 1);
      ok := Append(if format then 3 else 2, [OPEN_OBJECT] + Extra(format, NEWLINE, 1));
      if !ok {
        return;
      }
      depth := depth + 1;
      ok := PrintMembers(members);
      if !ok {
        return;
      }
      Assoc(before, open, RenderMembers(members, format, depth));
      ok := Close(if format then depth + 1 else 2, before, open + RenderMembers(members, format, depth),
                  Extra(format, TAB, depth - 1) + [CLOSE_OBJECT]);
    }

    // The loop of print_object.
    method PrintMembers(members: seq<Member>) returns (ok: bool)
      requires Valid()
      requires forall i :: 0 <= i < |members| ==> NulFree(members[i].key) && CStrings(members[i].value)
      modifies this`buffer, this`length, this`offset, this`depth, buffer
      ensures ok ==> Valid() && Done() == old(Done()) + RenderMembers(members, format, depth) && depth == old(depth)
      ensures (buffer == old(buffer) || (fresh(buffer) && !noalloc)) && Room() == old(Room())
      ensures old(offset) + |RenderMembers(members, format, old(depth))| + 2 <= Room() ==> ok
      decreases members, 0, |members| + 1
    {
      hide RenderMembers;
      hide RenderPair;
      hide LineEnd;
      ghost var whole := Done() + RenderMembers(members, format, depth);
      ok := true;
      var i := 0;
      assert members[0..] == members;
      while i < |members|
        invariant 0 <= i <= |members| && depth == old(depth)
        invariant Valid() && ok && Done() + RenderMembers(members[i..], format, depth) == whole
        invariant (buffer == old(buffer) || (fresh(buffer) && !noalloc)) && Room() == old(Room())
      {
        FirstMember(members, i, format, depth);
        Assoc(Done(), MemberText(members, i, format, depth), RenderMembers(members[i + 1..], format, depth));
        ok := PrintMember(members, i);
        if !ok {
          return;
        }
        i := i + 1;
      }
      assert members[i..] == [];
      NoMembers(format, depth);
      assert Done() + [] == Done();
    }

    // One pass of print_object's loop: a pair and what follows it.
    method PrintMember(members: seq<Member>, i: nat) returns (ok: bool)
      requires Valid() && i < |members| && NulFree(members[i].key) && CStrings(members[i].value)
      modifies this`buffer, this`length, this`offset, this`depth, buffer
      ensures ok ==> Valid() && Done() == old(Done()) + MemberText(members, i, format, depth) && depth == old(depth)
      ensures (buffer == old(buffer) || (fresh(buffer) && !noalloc)) && Room() == old(Room())
      ensures old(offset) + |MemberText(members, i, format, old(depth))| + 2 <= Room() ==> ok
      decreases members, 0, i
    {
      hide RenderPair;
      hide LineEnd;
      ghost var before, pair := Done(), RenderPair(members[i], format, depth);
      ok := PrintPair(members, i);
      if ok {
        var line := LineEnd(format, i + 1 < |members|);
        ok := Append(|line| + 1, line);
        Assoc(before, pair, line);
      }
    }

    // The indentation, the name, the colon and the value.
    method PrintPair(members: seq<Member>, i: nat) returns (ok: bool)
      requires Valid() && i < |members| && NulFree(members[i].key) && CStrings(members[i].value)
      modifies this`buffer, this`length, this`offset, this`depth, buffer
      ensures ok ==> Valid() && depth == old(depth) && Done() == old(Done()) + RenderPair(members[i], format, depth)
      ensures (buffer == old(buffer) || (fresh(buffer) && !noalloc)) && Room() == old(Room())
      ensures old(offset) + |RenderPair(members[i], format, old(depth))| + 2 <= Room() ==> ok
      decreases members, 0, i, 0
    {
      hide Render;
      hide RenderPair;
      hide KeyText;
      PairText(members[i], format, depth);
      ghost var before := Done();
      ok := PrintKey(members[i].key);
      if !ok {
        return;
      }
      ghost var named, text := Done(), Render(members[i].value, format, depth);
      ok := PrintValue(members[i].value);
      if !ok {
        return;
      }
      RenderedNulFree(members[i].value, format, depth);
      UpdateOffset(named, text);
      Assoc(before, KeyText(members[i].key, format, depth), text);
    }

    method PrintKey(key: seq<byte>) returns (ok: bool)
      requires Valid() && NulFree(key)
      modifies this`buffer, this`length, this`offset, buffer
      ensures ok ==> Valid() && Done() == old(Done()) + KeyText(key, format, depth)
      ensures (buffer == old(buffer) || (fresh(buffer) && !noalloc)) && Room() == old(Room())
      ensures old(offset) + |KeyText(key, format, depth)| + 2 <= Room() ==> ok
    {
      hide Extra;
      hide RenderString;
      ghost var before := Done();
      ok := PrintTabs();
      if !ok {
        return;
      }
      ghost var indented, text := Done(), RenderString(key);
      ok := PrintString(key);
      if !ok {
        return;
      }
      LiteralNulFree(key);
      UpdateOffset(indented, text);
      ghost var named := Done();
      ok := Append(if format then 2 else 1, ColonText(format));
      Assoc(before + Extra(format, TAB, depth), text, ColonText(format));
      Assoc(before, Extra(format, TAB, depth), text + ColonText(format));
    }

    // The indentation, in a formatted print only.
    method PrintTabs() returns (ok: bool)
      requires Valid()
      modifies this`buffer, this`length, this`offset, buffer
      ensures ok ==> Valid() && Done() == old(Done()) + Extra(format, TAB, depth)
      ensures (buffer == old(buffer) || (fresh(buffer) && !noalloc)) && Room() == old(Room())
      ensures old(offset) + |Extra(format, TAB, depth)| + 1 <= Room() ==> ok
    {
      ok := true;
      if format {
        ok := Append(depth, Extra(format, TAB, depth));
      } else {
        assert Done() + [] == Done();
      }
    }
  }

  // How many bytes behind its text the printer asks for: the terminator and,
  // but for a number, one more.
  function Spare(v: Json): nat {
    if v.Number? then 1 else 2
  }

  function ColonText(fmt: bool): (r: seq<byte>)
    ensures |r| == if fmt then 2 else 1
  {
    [COLON] + Extra(fmt, TAB, 1)
  }

  // What comes before the value of a member.
  function KeyText(key: seq<byte>, fmt: bool, depth: nat): seq<byte> {
    Extra(fmt, TAB, depth) + (RenderString(key) + ColonText(fmt))
  }

  lemma PairText(m: Member, fmt: bool, depth: nat)
    ensures RenderPair(m, fmt, depth) == KeyText(m.key, fmt, depth) + Render(m.value, fmt, depth)
  {
    hide RenderString;
    hide Extra;
    Assoc(Extra(fmt, TAB, depth), RenderString(m.key), ColonText(fmt));
  }

  lemma LiteralNulFree(s: seq<byte>)
    requires NulFree(s)
    ensures NulFree(RenderString(s))
  {
    EscapedNulFree(s);
  }

  lemma ArrayText(items: seq<Json>, fmt: bool, depth: nat)
    ensures Render(Array(items), fmt, depth) == [OPEN_ARRAY] + RenderItems(items, fmt, depth + 1) + [CLOSE_ARRAY]
  {
  }

  lemma ObjectText(members: seq<Member>, fmt: bool, depth: nat)
    ensures Render(Object(members), fmt, depth)
      == ([OPEN_OBJECT] + Extra(fmt, NEWLINE, 1)) + RenderMembers(members, fmt, depth + 1)
         + (Extra(fmt, TAB, depth) + [CLOSE_OBJECT])
  {
  }

  lemma NoItems(fmt: bool, depth: nat)
    ensures RenderItems([], fmt, depth) == []
  {
  }

  lemma NoMembers(fmt: bool, depth: nat)
    ensures RenderMembers([], fmt, depth) == []
  {
  }

  // A pair and what follows it.
  function MemberText(members: seq<Member>, i: nat, fmt: bool, depth: nat): seq<byte>
    requires i < |members|
  {
    RenderPair(members[i], fmt, depth) + LineEnd(fmt, i + 1 < |members|)
  }

  lemma FirstMember(members: seq<Member>, i: nat, fmt: bool, depth: nat)
    requires i < |members|
    ensures RenderMembers(members[i..], fmt, depth)
      == MemberText(members, i, fmt, depth) + RenderMembers(members[i + 1..], fmt, depth)
  {
    assert members[i..][0] == members[i] && members[i..][1..] == members[i + 1..];
  }

  // An item and the separator behind it.
  function ItemText(items: seq<Json>, i: nat, fmt: bool, depth: nat): seq<byte>
    requires i < |items|
  {
    Render(items[i], fmt, depth) + if i + 1 < |items| then [COMMA] + Extra(fmt, SPACE, 1) else []
  }

  lemma FirstItem(items: seq<Json>, i: nat, fmt: bool, depth: nat)
    requires i < |items|
    ensures RenderItems(items[i..], fmt, depth)
      == ItemText(items, i, fmt, depth) + RenderItems(items[i + 1..], fmt, depth)
  {
    var rest := items[i..];
    assert rest[0] == items[i] && rest[1..] == items[i + 1..];
    if i + 1 == |items| {
      assert Render(items[i], fmt, depth) + [] + [] == Render(items[i], fmt, depth);
    }
  }

  lemma LiteralLength(s: seq<byte>)
    ensures |RenderString(s)| == |Escaped(s)| + 2
  {
  }

  lemma LiteralText(before: seq<byte>, s: seq<byte>)
    ensures ((before + [QUOTE]) + Escaped(s)) + [QUOTE, 0] == before + RenderString(s) + [0]
  {
    hide Escaped;
  }

  // When escaping adds nothing, it changes nothing.
  lemma {:induction false} NothingEscaped(s: seq<byte>)
    requires |Escaped(s)| == |s|
    ensures Escaped(s) == s
  {
    if s != [] {
      EscapingGrows(s[1..]);
      NothingEscaped(s[1..]);
    }
  }

  lemma {:induction false} EscapingGrows(s: seq<byte>)
    ensures |Escaped(s)| >= |s|
  {
    if s != [] {
      EscapingGrows(s[1..]);
    }
  }

  // print: 256 bytes to start with, whose size is not recorded.
  method Print(v: Json, format: bool) returns (printed: Option<seq<byte>>)
    requires CStrings(v)
    ensures printed == if |Render(v, format, 0)| + Spare(v) <= 0x7fff_ffff then Some(Render(v, format, 0)) else None
  {
    var initial := new byte[256];
    var p := new PrintBuffer(initial, 0, false, format);
    var ok := p.PrintValue(v);
    if !ok {
      return None;
    }
    RenderedNulFree(v, format, 0);
    p.UpdateOffset([], Render(v, format, 0));
    assert [] + Render(v, format, 0) == Render(v, format, 0);
    printed := Some(p.buffer[..p.offset]);
  }

  // cJSON_PrintPreallocated: never reallocates the caller's buffer. The note
  // in its header asks for five bytes to spare; the terminator and one more
  // always suffice, and less never does.
  method PrintPreallocated(v: Json, buf: array<byte>, format: bool) returns (ok: bool)
    requires CStrings(v) && buf.Length <= INT_MAX
    modifies buf
    ensures ok <==> |Render(v, format, 0)| + Spare(v) <= buf.Length
    ensures ok ==> buf[..|Render(v, format, 0)| + 1] == Terminated(Render(v, format, 0))
  {
    hide Render;
    var p := new PrintBuffer(buf, buf.Length, true, format);
    ok := p.PrintValue(v);
    assert [] + Render(v, format, 0) + [0] == Terminated(Render(v, format, 0));
  }
}
