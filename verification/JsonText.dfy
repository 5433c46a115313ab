/** JSON values as the library holds them, and the text each of them prints as. */
module JsonText {
  import opened Bytes

  // A number is its decimal text, which the library leaves to the C library's
  // conversions; the linked list of children is a sequence.
  datatype Json =
    | Null
    | False
    | True
    | Number(text: seq<byte>)
    | Raw(raw: seq<byte>)
    | String(s: seq<byte>)
    | Array(items: seq<Json>)
    | Object(members: seq<Member>)

  datatype Member = Member(key: seq<byte>, value: Json)

  const NULL_TEXT: seq<byte> := [110, 117, 108, 108]
  const FALSE_TEXT: seq<byte> := [102, 97, 108, 115, 101]
  const TRUE_TEXT: seq<byte> := [116, 114, 117, 101]

  const TAB: byte := 9
  const NEWLINE: byte := 10
  const SPACE: byte := 32
  const QUOTE: byte := 34
  const COMMA: byte := 44
  const COLON: byte := 58
  const BACKSLASH: byte := 92
  const OPEN_ARRAY: byte := 91
  const CLOSE_ARRAY: byte := 93
  const OPEN_OBJECT: byte := 123
  const CLOSE_OBJECT: byte := 125

  function HexDigit(d: nat): (b: byte)
    requires d < 16
    ensures 48 <= b <= 57 || 97 <= b <= 102
  {
    if d < 10 then 48 + d else 97 + (d - 10)
  }

  // The letter of a two-character escape, or 0 when the byte has none.
  function EscapeLetter(b: byte): byte {
    if b == 34 || b == 92 then b
    else if b == 8 then 98
    else if b == 12 then 102
    else if b == 10 then 110
    else if b == 13 then 114
    else if b == 9 then 116
    else 0
  }

  function EscapedByte(b: byte): (r: seq<byte>)
    ensures 1 <= |r| <= 6 && NulFree(r)
  {
    if EscapeLetter(b) != 0 then [BACKSLASH, EscapeLetter(b)]
    else if b < 32 then [BACKSLASH, 117, 48, 48, HexDigit(b / 16), HexDigit(b % 16)]
    else [b]
  }

  function Escaped(s: seq<byte>): seq<byte> {
    if s == [] then [] else EscapedByte(s[0]) + Escaped(s[1..])
  }

  function RenderString(s: seq<byte>): (r: seq<byte>)
    ensures |r| >= 2 && r[0] == QUOTE
  {
    [QUOTE] + Escaped(s) + [QUOTE]
  }

  function Repeat(b: byte, n: nat): (r: seq<byte>)
    ensures |r| == n && forall i :: 0 <= i < n ==> r[i] == b
  {
    seq(n, _ => b)
  }

  // What a formatted print adds to an unformatted one.
  function Extra(fmt: bool, b: byte, n: nat): seq<byte> {
    if fmt then Repeat(b, n) else []
  }

  // The text of a value printed at nesting depth `depth`.
  function Render(v: Json, fmt: bool, depth: nat): seq<byte>
    decreases v, 1
  {
    match v
    case Null => NULL_TEXT
    case False => FALSE_TEXT
    case True => TRUE_TEXT
    case Number(text) => text
    case Raw(raw) => raw
    case String(s) => RenderString(s)
    case Array(items) => [OPEN_ARRAY] + RenderItems(items, fmt, depth + 1) + [CLOSE_ARRAY]
    case Object(members) =>
      ([OPEN_OBJECT] + Extra(fmt, NEWLINE, 1)) + RenderMembers(members, fmt, depth + 1)
      + (Extra(fmt, TAB, depth) + [CLOSE_OBJECT])
  }

  function RenderItems(items: seq<Json>, fmt: bool, depth: nat): seq<byte>
    decreases items, 0
  {
    if items == [] then []
    else if |items| == 1 then Render(items[0], fmt, depth)
    else Render(items[0], fmt, depth) + ([COMMA] + Extra(fmt, SPACE, 1)) + RenderItems(items[1..], fmt, depth)
  }

  // An indented name, the colon and the value.
  function RenderPair(m: Member, fmt: bool, depth: nat): seq<byte>
    decreases m, 2
  {
    Extra(fmt, TAB, depth) + RenderString(m.key) + ([COLON] + Extra(fmt, TAB, 1)) + Render(m.value, fmt, depth)
  }

  // What follows a member: a comma if it is not the last one, and the line end.
  function LineEnd(fmt: bool, more: bool): seq<byte> {
    (if more then [COMMA] else []) + Extra(fmt, NEWLINE, 1)
  }

  function RenderMembers(members: seq<Member>, fmt: bool, depth: nat): seq<byte>
    decreases members, 0
  {
    if members == [] then []
    else RenderPair(members[0], fmt, depth) + LineEnd(fmt, |members| > 1) + RenderMembers(members[1..], fmt, depth)
  }
}
