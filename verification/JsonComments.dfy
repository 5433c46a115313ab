/**
 Text as a sequence of pieces that minifying keeps or drops: literals and other
 bytes on one side, blanks and comments on the other.
 */
module JsonComments {
  import opened Bytes
  import opened JsonText
  import opened JsonGrammar
  import opened JsonMinify
  import opened JsonRoundTrip
  import opened JsonTokens

  // A byte that is no blank, quote, slash or terminator; a slash that begins no
  // comment; a literal; a space, tab, carriage return or line feed; a comment to
  // the end of its line, which is part of it; and one between a slash and a star
  // and a star and a slash. Both stars of that one can be the same.
  datatype Piece =
    | Single(b: byte)
    | Slash
    | Quotation(inside: seq<byte>)
    | Blank(b: byte)
    | LineComment(text: seq<byte>)
    | BlockComment(text: seq<byte>)

  predicate OkPiece(p: Piece) {
    match p
    case Single(b) => b !in {0, 9, 10, 13, 32, 34, 47}
    case Quotation(inside) => 0 !in inside && Open(inside)
    case Blank(b) => b in {9, 10, 13, 32}
    case LineComment(text) => 0 !in text && 10 !in text
    case Slash => true
    case BlockComment(text) =>
      && 0 !in text && (text != [] ==> text[0] == 42)
      && forall i :: 0 <= i < |text| && text[i] == 42 ==> i + 1 < |text| && text[i + 1] != 47
  }

  predicate OkPieces(ps: seq<Piece>) {
    forall i :: 0 <= i < |ps| ==> OkPiece(ps[i])
  }

  // Behind a slash comes neither a slash nor a star.
  predicate Apart(ps: seq<Piece>) {
    forall i :: 0 <= i < |ps| - 1 && ps[i].Slash? ==> PieceText(ps[i + 1])[0] != 47 && PieceText(ps[i + 1])[0] != 42
  }

  function PieceText(p: Piece): (r: seq<byte>)
    ensures |r| > 0
  {
    match p
    case Single(b) => [b]
    case Slash => [47]
    case Quotation(inside) => [34] + inside + [34]
    case Blank(b) => [b]
    case LineComment(text) => [47, 47] + text + [10]
    case BlockComment(text) => [47] + text + [42, 47]
  }

  function Text(ps: seq<Piece>): seq<byte> {
    if ps == [] then [] else PieceText(ps[0]) + Text(ps[1..])
  }

  // What is kept: everything but blanks and comments.
  predicate Solid(p: Piece) {
    p.Single? || p.Slash? || p.Quotation?
  }

  function Kept(ps: seq<Piece>): (ks: seq<Piece>)
    ensures forall p :: p in ks <==> p in ps && Solid(p)
  {
    if ps == [] then [] else (if Solid(ps[0]) then [ps[0]] else []) + Kept(ps[1..])
  }

  lemma {:induction false} InLine(text: seq<byte>, c: seq<byte>, i: nat)
    requires IsText(c) && At(c, i, text + [10]) && 0 !in text && 10 !in text
    ensures i < |c| && LineEndAt(c, i) == i + |text|
  {
    AtIndex(c, i, text + [10], 0);
    if text != [] {
      assert text + [10] == [text[0]] + (text[1..] + [10]);
      AtSplit(c, i, [text[0]], text[1..] + [10]);
      InLine(text[1..], c, i + 1);
    }
  }

  lemma {:induction false} InBlock(text: seq<byte>, c: seq<byte>, i: nat)
    requires IsText(c) && At(c, i, text + [42, 47]) && 0 !in text
    requires forall k :: 0 <= k < |text| && text[k] == 42 ==> k + 1 < |text| && text[k + 1] != 47
    ensures i < |c| && BlockEndAt(c, i) == i + |text| + 2
  {
    AtIndex(c, i, text + [42, 47], 0);
    AtIndex(c, i, text + [42, 47], 1);
    if text != [] {
      assert text + [42, 47] == [text[0]] + (text[1..] + [42, 47]);
      AtSplit(c, i, [text[0]], text[1..] + [42, 47]);
      InBlock(text[1..], c, i + 1);
    }
  }

  lemma {:induction false} InQuotation(inside: seq<byte>, c: seq<byte>, i: nat)
    requires IsText(c) && At(c, i, inside + [34]) && 0 !in inside && Open(inside)
    ensures LiteralEnd(c, i) == Some(i + |inside| + 1)
    decreases |inside|
  {
    AtIndex(c, i, inside + [34], 0);
    if inside != [] {
      var n := if inside[0] == 92 then 2 else 1;
      assert inside + [34] == inside[..n] + (inside[n..] + [34]);
      AtSplit(c, i, inside[..n], inside[n..] + [34]);
      InQuotation(inside[n..], c, i + n);
    }
  }

  lemma PieceMinified(p: Piece, c: seq<byte>, i: nat)
    requires IsText(c) && OkPiece(p) && At(c, i, PieceText(p)) && i + |PieceText(p)| < |c|
    requires var b := c[i + |PieceText(p)|]; p.Slash? ==> b != 47 && b != 42
    ensures Minified(c, i) == Prepend(if Solid(p) then PieceText(p) else [], Minified(c, i + |PieceText(p)|))
  {
    var e := i + |PieceText(p)|;
    PrependNothing(Minified(c, e));
    AtIndex(c, i, PieceText(p), 0);
    match p {
      case Single(_) =>
      case Slash =>
      case Blank(_) =>
      case Quotation(inside) => QuotationMinified(inside, c, i);
      case LineComment(text) => LineMinified(text, c, i);
      case BlockComment(text) => BlockMinified(text, c, i);
    }
  }

  lemma QuotationMinified(inside: seq<byte>, c: seq<byte>, i: nat)
    requires IsText(c) && 0 !in inside && Open(inside) && At(c, i, [34] + inside + [34])
    ensures Minified(c, i) == Prepend([34] + inside + [34], Minified(c, i + |inside| + 2))
  {
    hide LiteralEnd;
    assert [34] + inside + [34] == [34] + (inside + [34]);
    AtSplit(c, i, [34], inside + [34]);
    AtIndex(c, i, [34], 0);
    InQuotation(inside, c, i + 1);
    StandsThere(c, i, [34] + inside + [34]);
  }

  lemma LineMinified(text: seq<byte>, c: seq<byte>, i: nat)
    requires IsText(c) && 0 !in text && 10 !in text && At(c, i, [47, 47] + text + [10])
    requires i + |text| + 3 < |c|
    ensures Minified(c, i) == Minified(c, i + |text| + 3)
  {
    hide LineEndAt;
    assert [47, 47] + text + [10] == ([47, 47] + text) + [10];
    AtIndex(c, i, [47, 47] + text + [10], 0);
    AtIndex(c, i, [47, 47] + text + [10], 1);
    AtIndex(c, i, [47, 47] + text + [10], |text| + 2);
    InLine([47, 47] + text, c, i);
    assert Minified(c, i) == Minified(c, i + |text| + 2);
  }

  lemma BlockMinified(text: seq<byte>, c: seq<byte>, i: nat)
    requires IsText(c) && OkPiece(BlockComment(text)) && At(c, i, [47] + text + [42, 47])
    requires i + |text| + 3 < |c|
    ensures Minified(c, i) == Minified(c, i + |text| + 3)
  {
    hide BlockEndAt;
    var all := [47] + text;
    AtIndex(c, i, all + [42, 47], 0);
    AtIndex(c, i, all + [42, 47], 1);
    InBlock(all, c, i);
  }

  lemma {:induction false} PiecesMinified(ps: seq<Piece>, c: seq<byte>, i: nat)
    requires IsText(c) && OkPieces(ps) && Apart(ps) && At(c, i, Text(ps)) && i + |Text(ps)| < |c|
    requires var b := c[i + |Text(ps)|]; ps != [] && ps[|ps| - 1].Slash? ==> b != 47 && b != 42
    ensures Minified(c, i) == Prepend(Text(Kept(ps)), Minified(c, i + |Text(ps)|))
  {
    hide At, OkPiece, PieceText, Minified, Solid, Apart, Kept;
    if ps == [] {
      PrependNothing(Minified(c, i));
      NothingKept();
    } else {
      AtSplit(c, i, PieceText(ps[0]), Text(ps[1..]));
      NextByte(ps, c, i);
      PieceMinified(ps[0], c, i);
      ApartBehind(ps);
      PiecesMinified(ps[1..], c, i + |PieceText(ps[0])|);
      KeptText(ps);
      PrependTwice(if Solid(ps[0]) then PieceText(ps[0]) else [], Text(Kept(ps[1..])), Minified(c, i + |Text(ps)|));
    }
  }

  // What stands behind the first piece.
  lemma NextByte(ps: seq<Piece>, c: seq<byte>, i: nat)
    requires ps != [] && At(c, i + |PieceText(ps[0])|, Text(ps[1..])) && i + |Text(ps)| < |c|
    requires Apart(ps) && (|ps| == 1 && ps[0].Slash? ==> c[i + |Text(ps)|] != 47 && c[i + |Text(ps)|] != 42)
    ensures i + |PieceText(ps[0])| < |c|
    ensures var b := c[i + |PieceText(ps[0])|]; ps[0].Slash? ==> b != 47 && b != 42
  {
    hide At, PieceText, Text;
    TextFirst(ps);
    if |ps| > 1 {
      TextFirst(ps[1..]);
      AtIndex(c, i + |PieceText(ps[0])|, Text(ps[1..]), 0);
    }
  }

  lemma TextFirst(ps: seq<Piece>)
    requires ps != []
    ensures |Text(ps)| == |PieceText(ps[0])| + |Text(ps[1..])| && Text(ps)[0] == PieceText(ps[0])[0]
    ensures |ps| == 1 ==> Text(ps[1..]) == []
  {
    hide PieceText;
  }

  lemma ApartBehind(ps: seq<Piece>)
    requires ps != [] && Apart(ps)
    ensures Apart(ps[1..])
  {
    hide PieceText;
    var rest := ps[1..];
    assert forall i :: 0 <= i < |rest| ==> rest[i] == ps[i + 1];
  }

  lemma NothingKept()
    ensures Text(Kept([])) == []
  {
  }

  lemma KeptText(ps: seq<Piece>)
    requires ps != []
    ensures Text(Kept(ps)) == (if Solid(ps[0]) then PieceText(ps[0]) else []) + Text(Kept(ps[1..]))
  {
    hide PieceText, Solid;
    var rest := Kept(ps[1..]);
    if Solid(ps[0]) {
      assert ([ps[0]] + rest)[1..] == rest;
    } else {
      assert [] + rest == rest;
    }
  }

  // Minifying drops exactly the blanks and the comments.
  lemma MinifyPieces(ps: seq<Piece>)
    requires OkPieces(ps) && Apart(ps)
    ensures Minified(Terminated(Text(ps)), 0) == Some(Text(Kept(ps)))
  {
    hide OkPieces, Kept, Text;
    var c := Terminated(Text(ps));
    assert c[0..|Text(ps)|] == Text(ps);
    PiecesMinified(ps, c, 0);
    assert Minified(c, |Text(ps)|) == Some([]);
    assert Text(Kept(ps)) + [] == Text(Kept(ps));
  }

  // A comment to the end of the line may be the last thing of all.
  lemma MinifyLastLine(ps: seq<Piece>, text: seq<byte>)
    requires OkPieces(ps) && Apart(ps) && 0 !in text && 10 !in text
    requires ps != [] ==> !ps[|ps| - 1].Slash?
    ensures Minified(Terminated(Text(ps) + ([47, 47] + text)), 0) == Some(Text(Kept(ps)))
  {
    hide OkPieces, Kept, Text;
    var n, all := |Text(ps)|, Text(ps) + ([47, 47] + text);
    var c := Terminated(all);
    assert c[0..n] == Text(ps) && c[n..|c| - 1] == [47, 47] + text;
    PiecesMinified(ps, c, 0);
    ToTheEnd([47, 47] + text, c, n);
    assert Text(Kept(ps)) + [] == Text(Kept(ps));
  }

  lemma {:induction false} ToTheEnd(text: seq<byte>, c: seq<byte>, i: nat)
    requires IsText(c) && i < |c| && c[i..|c| - 1] == text && 0 !in text && 10 !in text
    ensures LineEndAt(c, i) == |c| - 1
    decreases |c| - i
  {
    if i + 1 < |c| {
      assert c[i] == text[0] && text[0] in text;
      assert c[i + 1..|c| - 1] == text[1..];
      ToTheEnd(text[1..], c, i + 1);
    }
  }

  // ----- The pieces of a print -----

  function Singles(r: seq<byte>): (ps: seq<Piece>)
    ensures |ps| == |r| && forall i :: 0 <= i < |r| ==> ps[i] == Single(r[i])
  {
    seq(|r|, i requires 0 <= i < |r| => Single(r[i]))
  }

  function Pieces(v: Json): seq<Piece>
    decreases v, 1
  {
    match v
    case String(s) => [Quotation(Escaped(s))]
    case Array(items) => [Single(91)] + ItemPieces(items) + [Single(93)]
    case Object(members) => [Single(123)] + MemberPieces(members) + [Single(125)]
    case _ => Singles(Render(v, false, 0))
  }

  function ItemPieces(items: seq<Json>): seq<Piece>
    decreases items, 0
  {
    if items == [] then []
    else if |items| == 1 then Pieces(items[0])
    else Pieces(items[0]) + [Single(44)] + ItemPieces(items[1..])
  }

  function PairPieces(m: Member): seq<Piece>
    decreases m, 2
  {
    [Quotation(Escaped(m.key))] + [Single(58)] + Pieces(m.value)
  }

  function MemberPieces(members: seq<Member>): seq<Piece>
    decreases members, 0
  {
    if members == [] then []
    else if |members| == 1 then PairPieces(members[0])
    else PairPieces(members[0]) + [Single(44)] + MemberPieces(members[1..])
  }

  // The pieces are well-formed, no slash is among them, and their text is r.
  predicate Makes(ps: seq<Piece>, r: seq<byte>) {
    OkPieces(ps) && Slash !in ps && Text(ps) == r
  }

  lemma {:induction false} TextOfBoth(ps: seq<Piece>, qs: seq<Piece>)
    ensures Text(ps + qs) == Text(ps) + Text(qs)
  {
    hide PieceText;
    if ps == [] {
      assert [] + qs == qs;
    } else {
      assert (ps + qs)[1..] == ps[1..] + qs;
      TextOfBoth(ps[1..], qs);
    }
  }

  lemma MakesBoth(ps: seq<Piece>, r: seq<byte>, qs: seq<Piece>, s: seq<byte>)
    requires Makes(ps, r) && Makes(qs, s)
    ensures Makes(ps + qs, r + s)
  {
    hide OkPiece, PieceText;
    TextOfBoth(ps, qs);
  }

  lemma Makes3(ps: seq<Piece>, r: seq<byte>, b: byte, qs: seq<Piece>, s: seq<byte>)
    requires Makes(ps, r) && OkPiece(Single(b)) && Makes(qs, s)
    ensures Makes(ps + [Single(b)] + qs, r + [b] + s)
  {
    hide OkPiece, Makes;
    MakesOne(Single(b));
    MakesBoth(ps, r, [Single(b)], [b]);
    MakesBoth(ps + [Single(b)], r + [b], qs, s);
  }

  lemma Encloses(a: byte, ps: seq<Piece>, r: seq<byte>, b: byte)
    requires Makes(ps, r) && OkPiece(Single(a)) && OkPiece(Single(b))
    ensures Makes([Single(a)] + ps + [Single(b)], [a] + r + [b])
  {
    hide OkPiece, Makes;
    MakesOne(Single(a));
    MakesOne(Single(b));
    MakesBoth([Single(a)], [a], ps, r);
    MakesBoth([Single(a)] + ps, [a] + r, [Single(b)], [b]);
  }

  lemma MakesOne(p: Piece)
    requires OkPiece(p) && p != Slash
    ensures Makes([p], PieceText(p))
  {
    hide OkPiece, PieceText;
    assert Text([p][1..]) == [];
  }

  lemma {:induction false} SinglesMake(r: seq<byte>)
    requires forall i :: 0 <= i < |r| ==> OkPiece(Single(r[i]))
    ensures Makes(Singles(r), r)
  {
    hide OkPiece;
    if r != [] {
      SinglesMake(r[1..]);
      assert Singles(r)[1..] == Singles(r[1..]);
      assert r == [r[0]] + r[1..];
    }
  }

  lemma {:induction false} EscapedOpen(s: seq<byte>)
    requires NulFree(s)
    ensures Open(Escaped(s)) && 0 !in Escaped(s)
  {
    hide Open, EscapedByte;
    if s == [] {
      NothingOpen();
    } else {
      EscapedOpen(s[1..]);
      ByteOpen(s[0], Escaped(s[1..]));
    }
  }

  lemma ByteOpen(b: byte, rest: seq<byte>)
    requires b != 0
    ensures Open(EscapedByte(b) + rest) <==> Open(rest)
    ensures 0 !in EscapedByte(b)
  {
    hide Open;
    var r := EscapedByte(b);
    if |r| == 1 {
      OpenPlain(b, rest);
    } else if |r| == 2 {
      OpenEscape(r[1], rest);
    } else {
      assert r == [92, 117] + r[2..];
      OpenHex(r[2..], rest);
    }
  }

  lemma QuotationMakes(s: seq<byte>)
    requires NulFree(s)
    ensures Makes([Quotation(Escaped(s))], RenderString(s))
  {
    hide Open, Makes, Escaped;
    EscapedOpen(s);
    MakesOne(Quotation(Escaped(s)));
  }

  // An unformatted print is made of pieces that are kept.
  lemma {:induction false} PrintMade(v: Json, d: nat)
    requires Faithful(v)
    ensures Makes(Pieces(v), Render(v, false, d))
    decreases v, 1
  {
    hide Makes, ItemPieces, MemberPieces, RenderItems, RenderMembers, RenderString, Escaped, StrtodLength;
    match v {
      case String(s) => QuotationMakes(s);
      case Array(items) =>
        ItemsMade(items, d + 1);
        Encloses(91, ItemPieces(items), RenderItems(items, false, d + 1), 93);
      case Object(members) =>
        MembersMade(members, d + 1);
        Encloses(123, MemberPieces(members), RenderMembers(members, false, d + 1), 125);
        assert [123] + [] == [123] && [] + [125] == [125];
      case _ => SinglesMake(Render(v, false, d));
    }
  }

  lemma {:induction false} ItemsMade(items: seq<Json>, d: nat)
    requires forall i :: 0 <= i < |items| ==> Faithful(items[i])
    ensures Makes(ItemPieces(items), RenderItems(items, false, d))
    decreases items, 0
  {
    hide Makes, Pieces, Render;
    if items == [] {
      NothingMade();
    } else {
      PrintMade(items[0], d);
      if |items| > 1 {
        ItemsMade(items[1..], d);
        Makes3(Pieces(items[0]), Render(items[0], false, d), 44, ItemPieces(items[1..]),
               RenderItems(items[1..], false, d));
        assert [44] + [] == [44];
      }
    }
  }

  lemma NothingMade()
    ensures Makes([], [])
  {
  }

  lemma {:induction false} PairMade(m: Member, d: nat)
    requires NulFree(m.key) && Faithful(m.value)
    ensures Makes(PairPieces(m), RenderPair(m, false, d))
    decreases m, 2
  {
    hide Makes, Pieces, Render, RenderString, Escaped;
    QuotationMakes(m.key);
    PrintMade(m.value, d);
    Makes3([Quotation(Escaped(m.key))], RenderString(m.key), 58, Pieces(m.value), Render(m.value, false, d));
    assert [] + RenderString(m.key) == RenderString(m.key) && [58] + [] == [58];
  }

  lemma {:induction false} MembersMade(members: seq<Member>, d: nat)
    requires forall i :: 0 <= i < |members| ==> NulFree(members[i].key) && Faithful(members[i].value)
    ensures Makes(MemberPieces(members), RenderMembers(members, false, d))
    decreases members, 0
  {
    hide Makes, PairPieces, RenderPair;
    if members == [] {
      NothingMade();
    } else {
      PairMade(members[0], d);
      var pair, rest := RenderPair(members[0], false, d), RenderMembers(members[1..], false, d);
      if |members| > 1 {
        MembersMade(members[1..], d);
        Makes3(PairPieces(members[0]), pair, 44, MemberPieces(members[1..]), rest);
        assert [44] + [] == [44];
      } else {
        assert rest == [] && pair + ([] + []) + [] == pair;
      }
    }
  }

  // A print with blanks and comments anywhere between its pieces minifies to
  // the unformatted print.
  lemma MinifyCommented(v: Json, ps: seq<Piece>)
    requires Faithful(v) && OkPieces(ps) && Kept(ps) == Pieces(v)
    ensures Minified(Terminated(Text(ps)), 0) == Some(Render(v, false, 0))
  {
    hide OkPieces, Kept, Minified, Render;
    PrintMade(v, 0);
    assert Slash !in ps;
    MinifyPieces(ps);
  }
}
