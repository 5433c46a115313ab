/**
 cJSON_Minify: removes white space and comments in place. The function says
 what is kept of a text; on printed text it keeps exactly the unformatted print.
 */
module JsonMinify {
  import opened Bytes
  import opened JsonText
  import opened JsonGrammar
  import opened JsonRoundTrip

  const SLASH: byte := 47
  const STAR: byte := 42

  predicate IsBlank(b: byte) {
    b == SPACE || b == TAB || b == 13 || b == NEWLINE
  }

  // Where a comment to the end of the line ends.
  function LineEndAt(c: seq<byte>, i: nat): (j: nat)
    requires IsText(c) && i < |c|
    ensures i <= j < |c|
    ensures c[i] != 0 && c[i] != NEWLINE ==> i < j
    decreases |c| - i
  {
    if c[i] == 0 || c[i] == NEWLINE then i else LineEndAt(c, i + 1)
  }

  // Behind the end of a block comment; past the terminator when it has none.
  // The search starts at the slash that opens the comment.
  function BlockEndAt(c: seq<byte>, i: nat): (j: nat)
    requires IsText(c) && i < |c|
    ensures i < j
    decreases |c| - i
  {
    if c[i] == 0 || (c[i] == STAR && c[i + 1] == SLASH) then i + 2 else BlockEndAt(c, i + 1)
  }

  // Behind the quote that closes a literal, or None when the terminator is
  // copied and passed instead.
  function LiteralEnd(c: seq<byte>, i: nat): (r: Option<nat>)
    requires IsText(c)
    ensures r.Some? ==> i < r.value < |c|
    decreases |c| - i
  {
    if i >= |c| || c[i] == 0 then None
    else if c[i] == QUOTE then Some(i + 1)
    else if c[i] == BACKSLASH then LiteralEnd(c, i + 2)
    else LiteralEnd(c, i + 1)
  }

  // What is kept of the text from `i` on; None when the loop would run past
  // the terminator (an open literal, escape or block comment).
  function Minified(c: seq<byte>, i: nat): Option<seq<byte>>
    requires IsText(c)
    decreases |c| - i
  {
    if i >= |c| then None
    else if c[i] == 0 then Some([])
    else if IsBlank(c[i]) then Minified(c, i + 1)
    else if c[i] == SLASH && c[i + 1] == SLASH then Minified(c, LineEndAt(c, i))
    else if c[i] == SLASH && c[i + 1] == STAR then Minified(c, BlockEndAt(c, i))
    else if c[i] == QUOTE then
      var e := LiteralEnd(c, i + 1);
      if e.None? then None else Prepend(c[i..e.value], Minified(c, e.value))
    else Prepend([c[i]], Minified(c, i + 1))
  }

  // ----- What is kept of the pieces of a print -----

  predicate Plain(b: byte) {
    !IsBlank(b) && b != 0 && b != SLASH && b != QUOTE
  }

  lemma {:induction false} KeepsPlain(r: seq<byte>, c: seq<byte>, i: nat)
    requires IsText(c) && At(c, i, r) && (forall k :: 0 <= k < |r| ==> Plain(r[k]))
    ensures Minified(c, i) == Prepend(r, Minified(c, i + |r|))
  {
    if r == [] {
      PrependNothing(Minified(c, i));
    } else {
      assert r == [r[0]] + r[1..];
      AtSplit(c, i, [r[0]], r[1..]);
      AtIndex(c, i, r, 0);
      KeepsPlain(r[1..], c, i + 1);
      PrependTwice([r[0]], r[1..], Minified(c, i + |r|));
    }
  }

  lemma {:induction false} DropsExtra(fmt: bool, b: byte, n: nat, c: seq<byte>, i: nat)
    requires IsText(c) && IsBlank(b) && At(c, i, Extra(fmt, b, n))
    ensures Minified(c, i) == Minified(c, i + |Extra(fmt, b, n)|)
  {
    if fmt && n > 0 {
      assert Extra(fmt, b, n) == [b] + Extra(fmt, b, n - 1);
      AtSplit(c, i, [b], Extra(fmt, b, n - 1));
      AtIndex(c, i, [b], 0);
      DropsExtra(fmt, b, n - 1, c, i + 1);
    }
  }

  lemma LiteralPassesByte(b: byte, c: seq<byte>, i: nat)
    requires IsText(c) && b != 0 && At(c, i, EscapedByte(b))
    ensures LiteralEnd(c, i) == LiteralEnd(c, i + |EscapedByte(b)|)
  {
    var r := EscapedByte(b);
    AtIndex(c, i, r, 0);
    if |r| == 6 {
      AtIndex(c, i, r, 2);
      AtIndex(c, i, r, 3);
      AtIndex(c, i, r, 4);
      AtIndex(c, i, r, 5);
      assert LiteralEnd(c, i) == LiteralEnd(c, i + 2);
      assert LiteralEnd(c, i + 2) == LiteralEnd(c, i + 3);
      assert LiteralEnd(c, i + 3) == LiteralEnd(c, i + 4);
      assert LiteralEnd(c, i + 4) == LiteralEnd(c, i + 5);
    }
  }

  lemma {:induction false} LiteralPasses(s: seq<byte>, c: seq<byte>, i: nat)
    requires IsText(c) && NulFree(s) && At(c, i, Escaped(s))
    ensures LiteralEnd(c, i) == LiteralEnd(c, i + |Escaped(s)|)
  {
    hide LiteralEnd, EscapedByte, At;
    if s != [] {
      AtSplit(c, i, EscapedByte(s[0]), Escaped(s[1..]));
      LiteralPassesByte(s[0], c, i);
      LiteralPasses(s[1..], c, i + |EscapedByte(s[0])|);
    }
  }

  lemma KeepsString(s: seq<byte>, c: seq<byte>, i: nat)
    requires IsText(c) && NulFree(s) && At(c, i, RenderString(s)) && i + |RenderString(s)| < |c|
    ensures Minified(c, i) == Prepend(RenderString(s), Minified(c, i + |RenderString(s)|))
  {
    hide LiteralEnd;
    var e := Escaped(s);
    assert c[i..i + |RenderString(s)|] == RenderString(s);
    AtIndex(c, i, RenderString(s), 0);
    AtSplit3(c, i, [QUOTE], e, [QUOTE]);
    AtIndex(c, i + 1 + |e|, [QUOTE], 0);
    LiteralPasses(s, c, i + 1);
    LiteralCloses(c, i + 1 + |e|);
  }

  lemma LiteralCloses(c: seq<byte>, i: nat)
    requires IsText(c) && i < |c| && c[i] == QUOTE
    ensures LiteralEnd(c, i) == Some(i + 1)
  {
  }

  // ----- Values -----

  lemma {:induction false} KeepsValue(v: Json, fmt: bool, d: nat, c: seq<byte>, i: nat)
    requires IsText(c) && Faithful(v) && At(c, i, Render(v, fmt, d)) && i + |Render(v, fmt, d)| < |c|
    ensures Minified(c, i) == Prepend(Render(v, false, d), Minified(c, i + |Render(v, fmt, d)|))
    decreases v, 1
  {
    hide At;
    hide Minified;
    hide RenderItems;
    hide RenderMembers;
    match v {
      case Null => KeepsPlain(NULL_TEXT, c, i);
      case False => KeepsPlain(FALSE_TEXT, c, i);
      case True => KeepsPlain(TRUE_TEXT, c, i);
      case Number(t) =>
        forall k | 0 <= k < |t| ensures Plain(t[k]) {
          assert IsNumberByte(t[k]);
        }
        KeepsPlain(t, c, i);
      case String(s) => KeepsString(s, c, i);
      case Array(items) =>
        KeepsArray(items, fmt, d, c, i);
      case Object(members) =>
        KeepsObject(members, fmt, d, c, i);
    }
  }

  lemma {:induction false} KeepsArray(items: seq<Json>, fmt: bool, d: nat, c: seq<byte>, i: nat)
    requires IsText(c) && Faithful(Array(items))
    requires At(c, i, Render(Array(items), fmt, d)) && i + |Render(Array(items), fmt, d)| < |c|
    ensures Minified(c, i) == Prepend(Render(Array(items), false, d), Minified(c, i + |Render(Array(items), fmt, d)|))
    decreases items, 2
  {
    hide At;
    hide Minified;
    hide RenderItems;
    var body := RenderItems(items, fmt, d + 1);
    AtSplit3(c, i, [OPEN_ARRAY], body, [CLOSE_ARRAY]);
    KeepsPlain([OPEN_ARRAY], c, i);
    KeepsItems(items, fmt, d + 1, c, i + 1);
    KeepsPlain([CLOSE_ARRAY], c, i + 1 + |body|);
    Prepend3([OPEN_ARRAY], RenderItems(items, false, d + 1), [CLOSE_ARRAY], Minified(c, i + 2 + |body|));
  }

  lemma Prepend3<T>(a: seq<T>, b: seq<T>, e: seq<T>, r: Option<seq<T>>)
    ensures Prepend(a, Prepend(b, Prepend(e, r))) == Prepend(a + b + e, r)
  {
    PrependTwice(b, e, r);
    PrependTwice(a, b + e, r);
    assert a + (b + e) == a + b + e;
  }

  lemma {:induction false} KeepsItems(items: seq<Json>, fmt: bool, d: nat, c: seq<byte>, i: nat)
    requires IsText(c) && (forall k :: 0 <= k < |items| ==> Faithful(items[k]))
    requires At(c, i, RenderItems(items, fmt, d)) && i + |RenderItems(items, fmt, d)| < |c|
    ensures Minified(c, i) == Prepend(RenderItems(items, false, d), Minified(c, i + |RenderItems(items, fmt, d)|))
    decreases items, 0
  {
    hide At;
    hide Minified;
    hide Render;
    if items == [] {
      PrependNothing(Minified(c, i));
    } else if |items| == 1 {
      KeepsValue(items[0], fmt, d, c, i);
    } else {
      var head, comma := Render(items[0], fmt, d), [COMMA] + Extra(fmt, SPACE, 1);
      var rest := RenderItems(items[1..], fmt, d);
      AtSplit3(c, i, head, comma, rest);
      KeepsValue(items[0], fmt, d, c, i);
      KeepsComma(fmt, c, i + |head|);
      var t := i + |head| + |comma|;
      KeepsItems(items[1..], fmt, d, c, t);
      Prepend3(Render(items[0], false, d), [COMMA], RenderItems(items[1..], false, d), Minified(c, t + |rest|));
      assert [COMMA] + Extra(false, SPACE, 1) == [COMMA];
    }
  }

  lemma {:induction false} KeepsObject(members: seq<Member>, fmt: bool, d: nat, c: seq<byte>, i: nat)
    requires IsText(c) && Faithful(Object(members))
    requires At(c, i, Render(Object(members), fmt, d)) && i + |Render(Object(members), fmt, d)| < |c|
    ensures Minified(c, i)
      == Prepend(Render(Object(members), false, d), Minified(c, i + |Render(Object(members), fmt, d)|))
    decreases members, 2
  {
    hide At;
    hide Minified;
    hide RenderMembers;
    var open, close := [OPEN_OBJECT] + Extra(fmt, NEWLINE, 1), Extra(fmt, TAB, d) + [CLOSE_OBJECT];
    var body := RenderMembers(members, fmt, d + 1);
    AtSplit3(c, i, open, body, close);
    KeepsOpen(fmt, c, i);
    KeepsMembers(members, fmt, d + 1, c, i + |open|);
    KeepsClose(fmt, d, c, i + |open| + |body|);
    Prepend3([OPEN_OBJECT], RenderMembers(members, false, d + 1), [CLOSE_OBJECT],
             Minified(c, i + |open| + |body| + |close|));
    assert [OPEN_OBJECT] + Extra(false, NEWLINE, 1) == [OPEN_OBJECT];
    assert Extra(false, TAB, d) + [CLOSE_OBJECT] == [CLOSE_OBJECT];
  }

  lemma KeepsOpen(fmt: bool, c: seq<byte>, i: nat)
    requires IsText(c) && At(c, i, [OPEN_OBJECT] + Extra(fmt, NEWLINE, 1))
    ensures Minified(c, i) == Prepend([OPEN_OBJECT], Minified(c, i + |[OPEN_OBJECT] + Extra(fmt, NEWLINE, 1)|))
  {
    hide At;
    hide Minified;
    AtSplit(c, i, [OPEN_OBJECT], Extra(fmt, NEWLINE, 1));
    KeepsPlain([OPEN_OBJECT], c, i);
    DropsExtra(fmt, NEWLINE, 1, c, i + 1);
  }

  lemma KeepsClose(fmt: bool, d: nat, c: seq<byte>, i: nat)
    requires IsText(c) && At(c, i, Extra(fmt, TAB, d) + [CLOSE_OBJECT])
    ensures Minified(c, i) == Prepend([CLOSE_OBJECT], Minified(c, i + |Extra(fmt, TAB, d) + [CLOSE_OBJECT]|))
  {
    hide At;
    hide Minified;
    AtSplit(c, i, Extra(fmt, TAB, d), [CLOSE_OBJECT]);
    DropsExtra(fmt, TAB, d, c, i);
    KeepsPlain([CLOSE_OBJECT], c, i + |Extra(fmt, TAB, d)|);
  }

  lemma KeepsComma(fmt: bool, c: seq<byte>, i: nat)
    requires IsText(c) && At(c, i, [COMMA] + Extra(fmt, SPACE, 1))
    ensures Minified(c, i) == Prepend([COMMA], Minified(c, i + |[COMMA] + Extra(fmt, SPACE, 1)|))
  {
    hide At;
    hide Minified;
    AtSplit(c, i, [COMMA], Extra(fmt, SPACE, 1));
    KeepsPlain([COMMA], c, i);
    DropsExtra(fmt, SPACE, 1, c, i + 1);
  }

  lemma {:induction false} KeepsPair(m: Member, fmt: bool, d: nat, c: seq<byte>, i: nat)
    requires IsText(c) && NulFree(m.key) && Faithful(m.value)
    requires At(c, i, RenderPair(m, fmt, d)) && i + |RenderPair(m, fmt, d)| < |c|
    ensures Minified(c, i) == Prepend(RenderPair(m, false, d), Minified(c, i + |RenderPair(m, fmt, d)|))
    decreases m, 2
  {
    hide At;
    hide Minified;
    hide Render;
    hide RenderString;
    var tabs, key, gap, value := Extra(fmt, TAB, d), RenderString(m.key), Extra(fmt, TAB, 1), Render(m.value, fmt, d);
    AtSplit(c, i, tabs + key + ([COLON] + gap), value);
    AtSplit3(c, i, tabs, key, [COLON] + gap);
    var k, colon := i + |tabs|, i + |tabs| + |key|;
    AtSplit(c, colon, [COLON], gap);
    DropsExtra(fmt, TAB, d, c, i);
    KeepsString(m.key, c, k);
    KeepsPlain([COLON], c, colon);
    DropsExtra(fmt, TAB, 1, c, colon + 1);
    var t := colon + 1 + |gap|;
    KeepsValue(m.value, fmt, d, c, t);
    Prepend3(key, [COLON], Render(m.value, false, d), Minified(c, t + |value|));
    assert RenderPair(m, false, d) == key + [COLON] + Render(m.value, false, d);
  }

  lemma {:induction false} KeepsMembers(members: seq<Member>, fmt: bool, d: nat, c: seq<byte>, i: nat)
    requires IsText(c) && (forall k :: 0 <= k < |members| ==> NulFree(members[k].key) && Faithful(members[k].value))
    requires At(c, i, RenderMembers(members, fmt, d)) && i + |RenderMembers(members, fmt, d)| < |c|
    ensures Minified(c, i)
      == Prepend(RenderMembers(members, false, d), Minified(c, i + |RenderMembers(members, fmt, d)|))
    decreases members, 0
  {
    hide At;
    hide Minified;
    hide RenderPair;
    hide LineEnd;
    if members == [] {
      PrependNothing(Minified(c, i));
    } else {
      var more := |members| > 1;
      var head, line, rest := RenderPair(members[0], fmt, d), LineEnd(fmt, more), RenderMembers(members[1..], fmt, d);
      AtSplit3(c, i, head, line, rest);
      var e, t := i + |head|, i + |head| + |line|;
      KeepsPair(members[0], fmt, d, c, i);
      KeepsLineEnd(fmt, more, c, e);
      KeepsMembers(members[1..], fmt, d, c, t);
      Prepend3(RenderPair(members[0], false, d), LineEnd(false, more), RenderMembers(members[1..], false, d),
               Minified(c, t + |rest|));
    }
  }

  lemma KeepsLineEnd(fmt: bool, more: bool, c: seq<byte>, i: nat)
    requires IsText(c) && At(c, i, LineEnd(fmt, more))
    ensures Minified(c, i) == Prepend(LineEnd(false, more), Minified(c, i + |LineEnd(fmt, more)|))
  {
    hide At;
    hide Minified;
    var comma: seq<byte>, newline := if more then [COMMA] else [], Extra(fmt, NEWLINE, 1);
    AtSplit(c, i, comma, newline);
    KeepsPlain(comma, c, i);
    DropsExtra(fmt, NEWLINE, 1, c, i + |comma|);
    assert LineEnd(false, more) == comma;
  }

  // Minifying a print, formatted or not, gives the unformatted print.
  lemma MinifyPrint(v: Json, fmt: bool)
    requires Faithful(v)
    ensures Minified(Terminated(Render(v, fmt, 0)), 0) == Some(Render(v, false, 0))
  {
    var text := Render(v, fmt, 0);
    var c := Terminated(text);
    assert c[0..|text|] == text;
    KeepsValue(v, fmt, 0, c, 0);
    assert Minified(c, |text|) == Some([]);
    assert Render(v, false, 0) + [] == Render(v, false, 0);
  }

  // ----- The loop, in place -----

  method Minify(json: array<byte>)
    requires IsText(json[..]) && Minified(json[..], 0).Some?
    modifies json
    ensures var kept := Minified(old(json[..]), 0).value; |kept| < json.Length && json[..|kept| + 1] == Terminated(kept)
  {
    ghost var c := json[..];
    var into: nat, i: nat := 0, 0;
    PrependNothing(Minified(c, 0));
    while json[i] != 0
      invariant into <= i < json.Length && json[i..] == c[i..]
      invariant Minified(c, 0) == Prepend(json[..into], Minified(c, i))
      decreases json.Length - i
    {
      assert json[i] == c[i] && i + 1 < json.Length && json[i + 1] == c[i + 1];
      assert json[i + 1..] == json[i..][1..] == c[i..][1..] == c[i + 1..];
      if json[i] == SPACE {
        i := i + 1;
      } else if json[i] == TAB {
        i := i + 1;
      } else if json[i] == 13 {
        i := i + 1;
      } else if json[i] == NEWLINE {
        i := i + 1;
      } else if json[i] == SLASH && json[i + 1] == SLASH {
        i := SkipLine(json, c, i);
      } else if json[i] == SLASH && json[i + 1] == STAR {
        i := SkipBlock(json, c, i);
      } else if json[i] == QUOTE {
        ghost var before, start := json[..into], i;
        into, i := CopyLiteral(json, c, into, i);
        PrependTwice(before, c[start..i], Minified(c, i));
      } else {
        ghost var before, start := json[..into], i;
        into, i := CopyByte(json, c, before, into, i, i);
        assert c[start..i] == [c[start]];
        PrependTwice(before, [c[start]], Minified(c, i));
      }
    }
    assert c[i] == json[i];
    ghost var kept := json[..into];
    assert kept + [] == kept;
    json[into] := 0;
    assert json[..into + 1] == kept + [0];
  }

  method SkipLine(json: array<byte>, ghost c: seq<byte>, start: nat) returns (i: nat)
    requires IsText(c) && |c| == json.Length && start < |c| && json[start..] == c[start..]
    requires c[start] == SLASH
    ensures start < i < |c| && i == LineEndAt(c, start) && json[i..] == c[i..]
  {
    i := start;
    assert json[start] == c[start];
    while json[i] != 0 && json[i] != NEWLINE
      invariant start <= i < |c| && json[i..] == c[i..]
      invariant LineEndAt(c, i) == LineEndAt(c, start)
      decreases |c| - i
    {
      assert json[i] == c[i];
      i := i + 1;
    }
    assert json[i] == c[i];
  }

  method SkipBlock(json: array<byte>, ghost c: seq<byte>, start: nat) returns (i: nat)
    requires IsText(c) && |c| == json.Length && start < |c| && json[start..] == c[start..]
    requires BlockEndAt(c, start) < |c|
    ensures start < i < |c| && i == BlockEndAt(c, start) && json[i..] == c[i..]
  {
    i := start;
    assert json[start] == c[start];
    while json[i] != 0 && !(json[i] == STAR && json[i + 1] == SLASH)
      invariant start <= i < |c| && json[i..] == c[i..]
      invariant BlockEndAt(c, i) == BlockEndAt(c, start)
      decreases |c| - i
    {
      assert json[i] == c[i] && json[i + 1] == c[i + 1];
      i := i + 1;
      assert json[i] == c[i];
    }
    assert json[i] == c[i];
    i := i + 2;
  }

  // The loop so far: the text from i on is untouched, and what was copied
  // since `start` stands behind `before`.
  ghost predicate Copied(now: seq<byte>, c: seq<byte>, before: seq<byte>, into: nat, start: nat, i: nat) {
    && |before| <= start <= i < |c| && |now| == |c| && into == |before| + (i - start)
    && now[i..] == c[i..] && now[..into] == before + c[start..i]
  }

  lemma CopiedAt(now: seq<byte>, c: seq<byte>, before: seq<byte>, into: nat, start: nat, i: nat)
    requires Copied(now, c, before, into, start, i)
    ensures into <= i < |c| == |now| && now[i] == c[i]
  {
    assert now[i..][0] == c[i..][0];
  }

  // Copies a string literal, escapes included, together with its quotes.
  method CopyLiteral(json: array<byte>, ghost c: seq<byte>, into0: nat, start: nat) returns (into: nat, i: nat)
    requires IsText(c) && |c| == json.Length && into0 <= start < |c| && json[start..] == c[start..]
    requires c[start] == QUOTE && LiteralEnd(c, start + 1).Some?
    modifies json
    ensures LiteralEnd(c, start + 1) == Some(i) && Copied(json[..], c, old(json[..into0]), into, start, i)
  {
    ghost var before := json[..into0];
    CopyStart(json[..], c, into0, start);
    hide Copied, LiteralEnd;
    into, i := CopyByte(json, c, before, into0, start, start);
    CopiedAt(json[..], c, before, into, start, i);
    while json[i] != 0 && json[i] != QUOTE
      invariant 0 <= i < |c| && json[i] == c[i] && Copied(json[..], c, before, into, start, i)
      invariant LiteralEnd(c, i) == LiteralEnd(c, start + 1) && LiteralEnd(c, i).Some?
      decreases |c| - i
    {
      into, i := CopyUnit(json, c, before, into, start, i);
      CopiedAt(json[..], c, before, into, start, i);
    }
    LiteralStep(c, i);
    into, i := CopyByte(json, c, before, into, start, i);
  }

  // One pass of the loop: a byte, or a backslash and the byte it escapes.
  method CopyUnit(json: array<byte>, ghost c: seq<byte>, ghost before: seq<byte>, into0: nat, ghost start: nat, i0: nat)
    returns (into: nat, i: nat)
    requires IsText(c) && Copied(json[..], c, before, into0, start, i0) && c[i0] != QUOTE && LiteralEnd(c, i0).Some?
    modifies json
    ensures i0 < i && Copied(json[..], c, before, into, start, i) && LiteralEnd(c, i) == LiteralEnd(c, i0)
  {
    LiteralStep(c, i0);
    CopiedAt(json[..], c, before, into0, start, i0);
    hide Copied, LiteralEnd;
    into, i := into0, i0;
    if json[i] == BACKSLASH {
      into, i := CopyByte(json, c, before, into, start, i);
    }
    into, i := CopyByte(json, c, before, into, start, i);
  }

  lemma LiteralStep(c: seq<byte>, i: nat)
    requires IsText(c) && LiteralEnd(c, i).Some?
    ensures i + 1 < |c| && c[i] != 0
    ensures if c[i] == QUOTE then LiteralEnd(c, i) == Some(i + 1)
            else if c[i] == BACKSLASH then i + 2 < |c| && LiteralEnd(c, i) == LiteralEnd(c, i + 2)
            else LiteralEnd(c, i) == LiteralEnd(c, i + 1)
  {
  }

  lemma CopyStart(now: seq<byte>, c: seq<byte>, into: nat, start: nat)
    requires |now| == |c| && into <= start < |c| && now[start..] == c[start..]
    ensures Copied(now, c, now[..into], into, start, start)
  {
  }

  method CopyByte(json: array<byte>, ghost c: seq<byte>, ghost before: seq<byte>, into: nat, ghost start: nat, i: nat)
    returns (into': nat, i': nat)
    requires Copied(json[..], c, before, into, start, i) && i + 1 < |c|
    modifies json
    ensures into' == into + 1 && i' == i + 1
    ensures Copied(json[..], c, before, into', start, i')
  {
    ghost var was := json[..];
    CopiedAt(was, c, before, into, start, i);
    json[into] := json[i];
    into', i' := into + 1, i + 1;
    assert json[..] == was[into := c[i]];
    CopiedStep(was, c, before, into, start, i);
  }

  lemma CopiedStep(now: seq<byte>, c: seq<byte>, before: seq<byte>, into: nat, start: nat, i: nat)
    requires Copied(now, c, before, into, start, i) && i + 1 < |c|
    ensures Copied(now[into := c[i]], c, before, into + 1, start, i + 1)
  {
    var next := now[into := c[i]];
    assert c[start..i + 1] == c[start..i] + [c[i]];
    assert next[..into + 1] == now[..into] + [c[i]];
    assert next[i + 1..] == now[i..][1..] == c[i..][1..] == c[i + 1..];
  }
}
