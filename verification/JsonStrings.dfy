/** What is printed as a string literal is parsed back as the same string. */
module JsonStrings {
  import opened Bytes
  import opened JsonText
  import opened JsonGrammar

  // ----- One escaped byte -----

  lemma HexInverts(d: nat)
    requires d < 16
    ensures HexValue(HexDigit(d)) == d
  {
  }

  // The search for the closing quote passes over the escape of a byte.
  lemma QuotePassesByte(b: byte, c: seq<byte>, i: nat)
    requires At(c, i, EscapedByte(b))
    ensures ClosingQuote(c, i) == ClosingQuote(c, i + |EscapedByte(b)|)
  {
    var r := EscapedByte(b);
    forall k | 0 <= k < |r| ensures c[i + k] == r[k] {
      AtIndex(c, i, r, k);
    }
    assert c[i] == r[0];
    if |r| == 2 {
      assert c[i + 1] == r[1];
    } else if |r| == 6 {
      assert c[i + 1] == r[1] && c[i + 2] == r[2] && c[i + 3] == r[3] && c[i + 4] == r[4] && c[i + 5] == r[5];
      assert ClosingQuote(c, i) == ClosingQuote(c, i + 2);
      assert ClosingQuote(c, i + 2) == ClosingQuote(c, i + 3);
      assert ClosingQuote(c, i + 3) == ClosingQuote(c, i + 4);
      assert ClosingQuote(c, i + 4) == ClosingQuote(c, i + 5);
    }
  }

  // The escape of a byte is decoded to that byte.
  lemma DecodeByte(b: byte, c: seq<byte>, i: nat, end: nat)
    requires b != 0 && At(c, i, EscapedByte(b)) && i + |EscapedByte(b)| <= end < |c|
    ensures Decode(c, i, end) == Prepend([b], Decode(c, i + |EscapedByte(b)|, end))
  {
    var r := EscapedByte(b);
    AtIndex(c, i, r, 0);
    if |r| == 2 {
      AtIndex(c, i, r, 1);
    } else if |r| == 6 {
      DecodeControl(b, c, i, end);
    }
  }

  lemma DecodeControl(b: byte, c: seq<byte>, i: nat, end: nat)
    requires b < 32 && EscapeLetter(b) == 0
    requires At(c, i, EscapedByte(b)) && i + 6 <= end < |c|
    ensures c[i] == BACKSLASH && c[i + 1] == 117 && Utf16At(c, i, end) == Some((b as nat, 6))
  {
    var r := EscapedByte(b);
    AtIndex(c, i, r, 0);
    AtIndex(c, i, r, 1);
    AtIndex(c, i, r, 2);
    AtIndex(c, i, r, 3);
    AtIndex(c, i, r, 4);
    AtIndex(c, i, r, 5);
    HexInverts(b / 16);
    HexInverts(b % 16);
    assert Hex4(c, i + 2) == b;
  }

  // ----- A whole string -----

  lemma {:induction false} QuotePasses(s: seq<byte>, c: seq<byte>, i: nat, end: nat)
    requires At(c, i, Escaped(s)) && end == i + |Escaped(s)| < |c| && c[end] == QUOTE
    ensures ClosingQuote(c, i) == Some(end)
  {
    hide EscapedByte, At;
    if s != [] {
      AtSplit(c, i, EscapedByte(s[0]), Escaped(s[1..]));
      QuotePassesByte(s[0], c, i);
      QuotePasses(s[1..], c, i + |EscapedByte(s[0])|, end);
    }
  }

  lemma {:induction false} DecodePasses(s: seq<byte>, c: seq<byte>, i: nat, end: nat)
    requires NulFree(s) && At(c, i, Escaped(s)) && end == i + |Escaped(s)| < |c|
    ensures Decode(c, i, end) == Some(s)
  {
    hide EscapedByte, At;
    if s != [] {
      AtSplit(c, i, EscapedByte(s[0]), Escaped(s[1..]));
      DecodeByte(s[0], c, i, end);
      DecodePasses(s[1..], c, i + |EscapedByte(s[0])|, end);
      assert [s[0]] + s[1..] == s;
    }
  }

  // Where a literal stands, the parser reads the string and stops after it.
  lemma StringRoundTrip(s: seq<byte>, c: seq<byte>, o: nat)
    requires NulFree(s) && At(c, o, RenderString(s))
    ensures ParseString(c, o) == Some((s, o + |RenderString(s)|))
  {
    hide At;
    hide ClosingQuote;
    hide Decode;
    var e := Escaped(s);
    AtSplit(c, o, [QUOTE] + e, [QUOTE]);
    AtSplit(c, o, [QUOTE], e);
    AtIndex(c, o, [QUOTE], 0);
    AtIndex(c, o + 1 + |e|, [QUOTE], 0);
    QuotePasses(s, c, o + 1, o + 1 + |e|);
    DecodePasses(s, c, o + 1, o + 1 + |e|);
  }

  lemma {:induction false} EscapedNulFree(s: seq<byte>)
    ensures NulFree(Escaped(s))
  {
    if s != [] {
      EscapedNulFree(s[1..]);
    }
  }

  // The values the printer is given: C strings, and numbers that fit the
  // buffer of 26 bytes that sprintf is called with.
  predicate CStrings(v: Json) {
    match v
    case Number(t) => NulFree(t) && |t| <= 25
    case Raw(t) => NulFree(t)
    case String(s) => NulFree(s)
    case Array(items) => forall i :: 0 <= i < |items| ==> CStrings(items[i])
    case Object(members) =>
      forall i :: 0 <= i < |members| ==> NulFree(members[i].key) && CStrings(members[i].value)
    case _ => true
  }

  lemma {:induction false} RenderedNulFree(v: Json, fmt: bool, d: nat)
    requires CStrings(v)
    ensures NulFree(Render(v, fmt, d))
    decreases v, 1
  {
    hide RenderItems;
    hide RenderMembers;
    hide RenderString;
    match v {
      case String(s) => RenderedKeyNulFree(s);
      case Array(items) => RenderedItemsNulFree(items, fmt, d + 1);
      case Object(members) => RenderedMembersNulFree(members, fmt, d + 1);
      case _ =>
    }
  }

  lemma {:induction false} RenderedItemsNulFree(items: seq<Json>, fmt: bool, d: nat)
    requires forall i :: 0 <= i < |items| ==> CStrings(items[i])
    ensures NulFree(RenderItems(items, fmt, d))
    decreases items, 0
  {
    if items != [] {
      RenderedNulFree(items[0], fmt, d);
      RenderedItemsNulFree(items[1..], fmt, d);
    }
  }

  lemma {:induction false} RenderedMembersNulFree(members: seq<Member>, fmt: bool, d: nat)
    requires forall i :: 0 <= i < |members| ==> CStrings(members[i].value)
    ensures NulFree(RenderMembers(members, fmt, d))
    decreases members, 0
  {
    hide Render;
    hide RenderString;
    if members != [] {
      RenderedKeyNulFree(members[0].key);
      RenderedNulFree(members[0].value, fmt, d);
      RenderedMembersNulFree(members[1..], fmt, d);
    }
  }

  lemma RenderedKeyNulFree(key: seq<byte>)
    ensures NulFree(RenderString(key))
  {
    EscapedNulFree(key);
  }
}
