/**
 Concrete syntax: what a JSON text looks like, byte by byte, and what it denotes. `strict`
 picks the grammar of RFC 8259; without it, the looser one that cJSON reads. Nothing here
 mentions the parser; `JsonComplete` and `JsonSound` relate the two.
 */
module JsonGrammar {
  import opened Bytes
  import opened JsonValue
  import opened JsonRender
  import opened JsonSyntax

  /** Between tokens stands the white space of section 2; cJSON takes any byte up to 32. */
  predicate IsGap(s: seq<byte>, strict: bool) {
    if strict then Blank(s) else White(s)
  }

  // ---------- numbers, section 6 ----------

  datatype Exponent = NoExponent | Exponent(mark: byte, sign: seq<byte>, digits: seq<byte>)

  datatype Numeral = Numeral(minus: bool, whole: seq<byte>, point: bool, fraction: seq<byte>, exponent: Exponent)

  const POINT: byte := 46

  predicate AllDigits(s: seq<byte>) {
    forall i :: 0 <= i < |s| ==> IsDigit(s[i])
  }

  predicate IsExponent(e: Exponent) {
    match e
    case NoExponent => true
    case Exponent(mark, sign, digits) =>
      && (mark == 101 || mark == 69)
      && (|sign| == 0 || (|sign| == 1 && IsSign(sign[0])))
      && digits != [] && AllDigits(digits)
  }

  /** `strtod` takes leading zeros, a point without digits behind it, and behind a minus none before it. */
  predicate IsNumeral(n: Numeral, strict: bool) {
    && AllDigits(n.whole) && AllDigits(n.fraction) && (!n.point ==> n.fraction == []) && IsExponent(n.exponent)
    && if strict then n.whole != [] && (n.whole[0] == 48 ==> |n.whole| == 1) && (n.point ==> n.fraction != [])
       else (n.whole != [] || n.fraction != []) && (n.minus || n.whole != [])
  }

  function MinusText(minus: bool): seq<byte> {
    if minus then [MINUS] else []
  }

  function FractionText(n: Numeral): seq<byte> {
    if n.point then [POINT] + n.fraction else []
  }

  function ExponentText(e: Exponent): seq<byte> {
    match e
    case NoExponent => []
    case Exponent(mark, sign, digits) => [mark] + sign + digits
  }

  function NumeralText(n: Numeral): seq<byte> {
    MinusText(n.minus) + n.whole + FractionText(n) + ExponentText(n.exponent)
  }

  /** Digits by their place: the first one weighs ten to the `k`, the next a tenth of that. */
  function Places(ds: seq<byte>, k: int): real {
    if ds == [] then 0.0 else (ds[0] as int - 48) as real * Pow10(k) + Places(ds[1..], k - 1)
  }

  function ExponentOf(e: Exponent): int {
    match e
    case NoExponent => 0
    case Exponent(_, sign, digits) =>
      (if sign == [MINUS] then -1 else 1) * DigitsValue(digits, 0, |digits|)
  }

  /** The exponent moves the places of all digits. */
  function NumeralValue(n: Numeral): real {
    var magnitude := Places(n.whole + n.fraction, |n.whole| - 1 + ExponentOf(n.exponent));
    if n.minus then -magnitude else magnitude
  }

  // ---------- strings, section 7 ----------

  datatype Char =
    | Raw(b: byte)
    | Escaped(letter: byte)
    | CodeUnit(a: byte, b: byte, c: byte, d: byte)    // behind `\u`

  /** cJSON also copies raw control characters and takes any four bytes behind `\u`. */
  predicate IsChar(x: Char, strict: bool) {
    match x
    case Raw(b) => if strict then b >= 32 && b != QUOTE && b != BACKSLASH else b != BACKSLASH
    case Escaped(letter) => SimpleEscape(letter).Some?
    case CodeUnit(a, b, c, d) =>
      strict ==> HexValue(a).Some? && HexValue(b).Some? && HexValue(c).Some? && HexValue(d).Some?
  }

  function CharText(x: Char): seq<byte> {
    match x
    case Raw(b) => [b]
    case Escaped(letter) => [BACKSLASH, letter]
    case CodeUnit(a, b, c, d) => [BACKSLASH, 117, a, b, c, d]
  }

  predicate AreChars(xs: seq<Char>, strict: bool) {
    xs == [] || (IsChar(xs[0], strict) && AreChars(xs[1..], strict))
  }

  function CharsText(xs: seq<Char>): seq<byte> {
    if xs == [] then [] else CharText(xs[0]) + CharsText(xs[1..])
  }

  /**
   A string as its characters. The letter of a last escape may be the closing quote itself: in
   a loose text the characters need not end where the string does.
   */
  datatype Text = Text(chars: seq<Char>, overrun: bool)

  /** What stands between the quotes. */
  function Body(t: Text): seq<byte> {
    var s := CharsText(t.chars);
    if t.overrun && s != [] then s[..|s| - 1] else s
  }

  /** Byte pair by byte pair, no quote stands outside an escape. */
  predicate Unquoted(s: seq<byte>) {
    if s == [] then true
    else if s[0] == BACKSLASH then |s| >= 2 && Unquoted(s[2..])
    else s[0] != QUOTE && Unquoted(s[1..])
  }

  predicate EndsInQuote(xs: seq<Char>) {
    xs != [] && xs[|xs| - 1] == Escaped(QUOTE)
  }

  predicate IsText(t: Text, strict: bool) {
    && AreChars(t.chars, strict)
    && if strict then !t.overrun else Unquoted(Body(t)) && (t.overrun ==> EndsInQuote(t.chars))
  }

  function StringText(t: Text): seq<byte> {
    [QUOTE] + Body(t) + [QUOTE]
  }

  /** The code unit of four hex digits; zero when one of them is not a hex digit. */
  function UnitOf(x: Char): (u: nat)
    requires x.CodeUnit?
    ensures u < 0x10000
  {
    match (HexValue(x.a), HexValue(x.b), HexValue(x.c), HexValue(x.d))
    case (Some(a), Some(b), Some(c), Some(d)) => a * 0x1000 + b * 0x100 + c * 0x10 + d
    case _ => 0
  }

  predicate IsHigh(x: Char) { x.CodeUnit? && HighSurrogate(UnitOf(x)) }

  predicate IsLow(x: Char) { x.CodeUnit? && LowSurrogate(UnitOf(x)) }

  /** The string starts with a high surrogate and a low one. */
  predicate StartsPair(xs: seq<Char>) {
    |xs| >= 2 && IsHigh(xs[0]) && IsLow(xs[1])
  }

  /** Every surrogate belongs to a pair; section 8.2 leaves the others without meaning. */
  predicate Paired(xs: seq<Char>)
    decreases |xs|
  {
    if xs == [] then true
    else if StartsPair(xs) then Paired(xs[2..])
    else !IsHigh(xs[0]) && !IsLow(xs[0]) && Paired(xs[1..])
  }

  /** The code point of a surrogate pair. */
  function PairOf(high: Char, low: Char): (cp: nat)
    requires IsHigh(high) && IsLow(low)
    ensures 0x10000 <= cp < 0x110000
  {
    0x10000 + (UnitOf(high) - 0xD800) * 0x400 + (UnitOf(low) - 0xDC00)
  }

  function CharBytes(x: Char): seq<byte> {
    match x
    case Raw(b) => [b]
    case Escaped(letter) => (match SimpleEscape(letter) case Some(b) => [b] case None => [])
    case CodeUnit(_, _, _, _) => EncodeUtf8(UnitOf(x))
  }

  /** The string in UTF-8. */
  function Decoded(xs: seq<Char>): seq<byte>
    decreases |xs|
  {
    if xs == [] then []
    else if StartsPair(xs) then EncodeUtf8(PairOf(xs[0], xs[1])) + Decoded(xs[2..])
    else CharBytes(xs[0]) + Decoded(xs[1..])
  }

  // ---------- values, sections 3 to 5 ----------

  datatype Syntax =
    | NullWord
    | FalseWord
    | TrueWord
    | NumberOf(numeral: Numeral)
    | StringOf(text: Text)
    | ArrayOf(gap: seq<byte>, elements: seq<Element>)     // the gap is what an empty array holds
    | ObjectOf(gap: seq<byte>, entries: seq<Entry>)

  /** A value and the white space around it. */
  datatype Element = Element(before: seq<byte>, value: Syntax, after: seq<byte>)

  /** A key, the white space around it, and its element behind the colon. */
  datatype Entry = Entry(before: seq<byte>, key: Text, after: seq<byte>, element: Element)

  predicate IsJson(x: Syntax, strict: bool)
    decreases x, 2
  {
    match x
    case NumberOf(n) => IsNumeral(n, strict)
    case StringOf(s) => IsText(s, strict)
    case ArrayOf(gap, elements) => IsGap(gap, strict) && AreElements(elements, strict)
    case ObjectOf(gap, entries) => IsGap(gap, strict) && AreEntries(entries, strict)
    case _ => true
  }

  predicate IsElement(e: Element, strict: bool)
    decreases e, 1
  {
    IsGap(e.before, strict) && IsJson(e.value, strict) && IsGap(e.after, strict)
  }

  predicate AreElements(es: seq<Element>, strict: bool)
    decreases es, 0
  {
    es == [] || (IsElement(es[0], strict) && AreElements(es[1..], strict))
  }

  predicate IsEntry(e: Entry, strict: bool)
    decreases e, 1
  {
    IsGap(e.before, strict) && IsText(e.key, strict) && IsGap(e.after, strict) && IsElement(e.element, strict)
  }

  predicate AreEntries(es: seq<Entry>, strict: bool)
    decreases es, 0
  {
    es == [] || (IsEntry(es[0], strict) && AreEntries(es[1..], strict))
  }

  function TextOf(x: Syntax): seq<byte>
    decreases x, 2
  {
    match x
    case NullWord => NULL_TEXT
    case FalseWord => FALSE_TEXT
    case TrueWord => TRUE_TEXT
    case NumberOf(n) => NumeralText(n)
    case StringOf(s) => StringText(s)
    case ArrayOf(gap, elements) =>
      [LBRACKET] + (if elements == [] then gap else ElementsText(elements)) + [RBRACKET]
    case ObjectOf(gap, entries) =>
      [LBRACE] + (if entries == [] then gap else EntriesText(entries)) + [RBRACE]
  }

  function ElementText(e: Element): seq<byte>
    decreases e, 1
  {
    e.before + TextOf(e.value) + e.after
  }

  function ElementsText(es: seq<Element>): seq<byte>
    decreases es, 0
  {
    if es == [] then []
    else if |es| == 1 then ElementText(es[0])
    else ElementText(es[0]) + [COMMA] + ElementsText(es[1..])
  }

  function KeyText(e: Entry): seq<byte> {
    e.before + StringText(e.key) + e.after + [COLON]
  }

  function EntryText(e: Entry): seq<byte>
    decreases e, 1
  {
    KeyText(e) + ElementText(e.element)
  }

  function EntriesText(es: seq<Entry>): seq<byte>
    decreases es, 0
  {
    if es == [] then []
    else if |es| == 1 then EntryText(es[0])
    else EntryText(es[0]) + [COMMA] + EntriesText(es[1..])
  }

  function ValueOf(x: Syntax): Json
    decreases x, 2
  {
    match x
    case NullWord => Null
    case FalseWord => False
    case TrueWord => True
    case NumberOf(n) => Number(NumeralValue(n))
    case StringOf(s) => String(Decoded(s.chars))
    case ArrayOf(_, elements) => Array(ValuesOf(elements))
    case ObjectOf(_, entries) => Object(MembersOf(entries))
  }

  function ValuesOf(es: seq<Element>): seq<Json>
    decreases es, 0
  {
    if es == [] then [] else [ValueOf(es[0].value)] + ValuesOf(es[1..])
  }

  function MembersOf(es: seq<Entry>): seq<Member>
    decreases es, 0
  {
    if es == [] then []
    else [Member(Decoded(es[0].key.chars), ValueOf(es[0].element.value))] + MembersOf(es[1..])
  }

  // ---------- the tokens ----------

  /** The bytes that the grammar is made of, as characters. */
  lemma Tokens()
    ensures [QUOTE, BACKSLASH, SLASH, COMMA, COLON, MINUS, POINT] == Ascii("\"\\/,:-.")
    ensures [LBRACKET, RBRACKET, LBRACE, RBRACE] == Ascii("[]{}")
    ensures [SPACE, TAB, NEWLINE, 13] == Ascii(" \t\n\r")
    ensures NULL_TEXT == Ascii("null") && FALSE_TEXT == Ascii("false") && TRUE_TEXT == Ascii("true")
    ensures BOM == EncodeUtf8(0xFEFF)
  {
  }

  /** The classes of bytes, as characters. */
  lemma Classes(b: byte)
    ensures IsDigit(b) <==> '0' as int <= b <= '9' as int
    ensures IsSign(b) <==> b == '+' as int || b == '-' as int
    ensures IsNumeric(b) <==> IsDigit(b) || IsSign(b) || b == 'e' as int || b == 'E' as int || b == '.' as int
    ensures IsBlank(b) <==> b == ' ' as int || b == '\t' as int || b == '\n' as int || b == '\r' as int
  {
  }

  /** A hex digit is its place among the sixteen, in either case. */
  lemma HexDigits(b: byte)
    ensures HexValue(b) == if '0' as int <= b <= '9' as int then Some(b - '0' as int)
                           else if 'a' as int <= b <= 'f' as int then Some(10 + b - 'a' as int)
                           else if 'A' as int <= b <= 'F' as int then Some(10 + b - 'A' as int)
                           else None
  {
  }

  /** The eight short escapes of section 7, and no other. */
  lemma ShortEscapes(b: byte)
    ensures var names, meanings := Ascii("\"\\/bfnrt"), [0x22, 0x5C, 0x2F, 0x8, 0xC, 0xA, 0xD, 0x9];
            && (forall i :: 0 <= i < 8 ==> SimpleEscape(names[i]) == Some(meanings[i]))
            && (b !in names ==> SimpleEscape(b) == None)
  {
    var names := Ascii("\"\\/bfnrt");
    assert names[0] == 34 && names[1] == 92 && names[2] == 47 && names[3] == 98 && names[4] == 102 && names[5] == 110
           && names[6] == 114 && names[7] == 116;
  }

  // ---------- whole texts ----------

  /** A text, maybe with a byte order mark, which section 8.1 lets a parser ignore. */
  datatype Document = Document(bom: bool, element: Element)

  function BomText(bom: bool): seq<byte> {
    if bom then BOM else []
  }

  function DocumentText(t: Document): seq<byte> {
    BomText(t.bom) + ElementText(t.element)
  }

  // ---------- what cJSON supports of it ----------

  /** Numbers fit the parser's copy, and surrogates come in pairs. */
  predicate Supported(x: Syntax)
    decreases x, 2
  {
    match x
    case NumberOf(n) => |NumeralText(n)| <= 63
    case StringOf(s) => Paired(s.chars)
    case ArrayOf(_, elements) => AllSupported(elements)
    case ObjectOf(_, entries) => EntriesSupported(entries)
    case _ => true
  }

  predicate AllSupported(es: seq<Element>)
    decreases es, 0
  {
    es == [] || (Supported(es[0].value) && AllSupported(es[1..]))
  }

  predicate EntriesSupported(es: seq<Entry>)
    decreases es, 0
  {
    es == [] || (Paired(es[0].key.chars) && Supported(es[0].element.value) && EntriesSupported(es[1..]))
  }

  /** A value as C strings show it: every string and key up to its first NUL. */
  function AsC(t: Json): Json
    decreases t, 1
  {
    match t
    case String(s) => String(CString(s))
    case Array(items) => Array(ItemsAsC(items))
    case Object(members) => Object(MembersAsC(members))
    case _ => t
  }

  function ItemsAsC(items: seq<Json>): seq<Json>
    decreases items, 0
  {
    if items == [] then [] else [AsC(items[0])] + ItemsAsC(items[1..])
  }

  function MembersAsC(members: seq<Member>): seq<Member>
    decreases members, 0
  {
    if members == [] then []
    else [Member(CString(members[0].key), AsC(members[0].value))] + MembersAsC(members[1..])
  }

  /** No string and no key of the value has a NUL in it. */
  predicate NoNul(t: Json)
    decreases t, 1
  {
    match t
    case String(s) => NulFree(s)
    case Array(items) => NoNulItems(items)
    case Object(members) => NoNulMembers(members)
    case _ => true
  }

  predicate NoNulItems(items: seq<Json>)
    decreases items, 0
  {
    items == [] || (NoNul(items[0]) && NoNulItems(items[1..]))
  }

  predicate NoNulMembers(members: seq<Member>)
    decreases members, 0
  {
    members == [] || (NulFree(members[0].key) && NoNul(members[0].value) && NoNulMembers(members[1..]))
  }
}
