/**
 The text a JSON value should print as: a pure renderer with no buffer. It is
 the reference for the printer, the parser and the minifier.
 */
module JsonRender {
  import opened Bytes
  import opened JsonValue

  const NULL_TEXT: seq<byte> := [110, 117, 108, 108]
  const FALSE_TEXT: seq<byte> := [102, 97, 108, 115, 101]
  const TRUE_TEXT: seq<byte> := [116, 114, 117, 101]

  // ---------- numbers ----------

  function Digits(n: nat): (s: seq<byte>)
    ensures |s| > 0
    ensures forall i :: 0 <= i < |s| ==> 48 <= s[i] <= 57
  {
    if n < 10 then [48 + n] else Digits(n / 10) + [48 + n % 10]
  }

  function Decimal(n: int): (s: seq<byte>)
    ensures |s| > 0
  {
    if n < 0 then [MINUS] + Digits(-n) else Digits(n)
  }

  // ---------- strings ----------

  function HexDigit(d: nat): byte
    requires d < 16
  {
    if d < 10 then 48 + d else 87 + d
  }

  /** One byte of a string as section 7 of RFC 8259 lets a printer write it. */
  function Escape(b: byte): (s: seq<byte>)
    ensures |s| > 0
  {
    if b == QUOTE || b == BACKSLASH then [BACKSLASH, b]
    else if b == 8 then [BACKSLASH, 98]
    else if b == 12 then [BACKSLASH, 102]
    else if b == NEWLINE then [BACKSLASH, 110]
    else if b == 13 then [BACKSLASH, 114]
    else if b == TAB then [BACKSLASH, 116]
    else if b < 32 then [BACKSLASH, 117, 48, 48, HexDigit(b / 16), HexDigit(b % 16)]
    else [b]
  }

  function EscapeAll(s: seq<byte>): seq<byte> {
    if s == [] then [] else Escape(s[0]) + EscapeAll(s[1..])
  }

  function Quoted(s: seq<byte>): (r: seq<byte>)
    ensures |r| > 0 && r[0] == QUOTE
  {
    [QUOTE] + EscapeAll(s) + [QUOTE]
  }

  // ---------- values ----------

  function Tabs(n: nat): (s: seq<byte>)
    ensures |s| == n
    ensures forall i :: 0 <= i < n ==> s[i] == TAB
  {
    if n == 0 then [] else [TAB] + Tabs(n - 1)
  }

  function ItemSeparator(fmt: bool): seq<byte> {
    if fmt then [COMMA, SPACE] else [COMMA]
  }

  function ObjectOpen(fmt: bool): seq<byte> {
    if fmt then [LBRACE, NEWLINE] else [LBRACE]
  }

  function KeySeparator(fmt: bool): seq<byte> {
    if fmt then [COLON, TAB] else [COLON]
  }

  function MemberEnd(fmt: bool, last: bool): seq<byte> {
    (if last then [] else [COMMA]) + (if fmt then [NEWLINE] else [])
  }

  function Indent(fmt: bool, depth: nat): seq<byte> {
    if fmt then Tabs(depth) else []
  }

  function Render(t: Json, fmt: bool, depth: nat): (r: seq<byte>)
    ensures |r| > 0
    decreases t, 1
  {
    match t
    case Null => NULL_TEXT
    case False => FALSE_TEXT
    case True => TRUE_TEXT
    case Number(v) => Decimal(v.Floor)
    case String(s) => Quoted(s)
    case Array(items) => [LBRACKET] + RenderItems(items, fmt, depth + 1) + [RBRACKET]
    case Object(members) =>
      ObjectOpen(fmt) + RenderMembers(members, fmt, depth + 1) + Indent(fmt, depth) + [RBRACE]
  }

  function RenderItems(items: seq<Json>, fmt: bool, depth: nat): seq<byte>
    decreases items, 0
  {
    if items == [] then []
    else if |items| == 1 then Render(items[0], fmt, depth)
    else Render(items[0], fmt, depth) + ItemSeparator(fmt) + RenderItems(items[1..], fmt, depth)
  }

  function RenderMember(m: Member, fmt: bool, depth: nat, last: bool): (r: seq<byte>)
    ensures |r| > 0
    decreases m, 2
  {
    Indent(fmt, depth) + Quoted(m.key) + KeySeparator(fmt) + Render(m.value, fmt, depth)
    + MemberEnd(fmt, last)
  }

  function RenderMembers(members: seq<Member>, fmt: bool, depth: nat): seq<byte>
    decreases members, 0
  {
    if members == [] then []
    else RenderMember(members[0], fmt, depth, |members| == 1) + RenderMembers(members[1..], fmt, depth)
  }
}
