/**
 What the cJSON parser computes, as pure functions of the text and an offset.
 The reader's methods are proved equal to these; the lemmas are about these.
 */
module JsonSyntax {
  import opened Bytes
  import opened JsonValue
  import opened JsonRender

  /** How deeply the parser lets arrays and objects nest. */
  const NESTING_LIMIT: nat := 1000

  /** Where a parse step stopped: `at` is the offset it leaves behind when it fails. */
  datatype Outcome<+T> = Fail(at: nat) | Ok(value: T, next: nat)

  // ---------- white space ----------

  function SpacesEnd(c: seq<byte>, o: nat): (e: nat)
    requires o <= |c|
    ensures o <= e <= |c|
    ensures forall i :: o <= i < e ==> c[i] <= 32
    ensures e < |c| ==> c[e] > 32
    decreases |c| - o
  {
    if o < |c| && c[o] <= 32 then SpacesEnd(c, o + 1) else o
  }

  /** Skip white space; an offset that would leave the buffer steps back onto the last byte. */
  function Skip(c: seq<byte>, o: nat): (e: nat)
    requires o <= |c|
    ensures o <= e <= |c|
    ensures o < |c| ==> e < |c|
  {
    if o == |c| then o
    else if SpacesEnd(c, o) == |c| then |c| - 1
    else SpacesEnd(c, o)
  }

  // ---------- numbers ----------

  predicate IsDigit(b: byte) { 48 <= b <= 57 }

  /** The bytes that may appear in the copy handed to `strtod`. */
  predicate IsNumeric(b: byte) {
    IsDigit(b) || b == 43 || b == MINUS || b == 101 || b == 69 || b == 46
  }

  /** Length of the numeric run at `o`, cut at `room` bytes. */
  function NumericRun(c: seq<byte>, o: nat, room: nat): (n: nat)
    requires o <= |c|
    ensures n <= room && o + n <= |c|
    ensures forall i :: o <= i < o + n ==> IsNumeric(c[i])
    decreases room
  {
    if room > 0 && o < |c| && IsNumeric(c[o]) then 1 + NumericRun(c, o + 1, room - 1) else 0
  }

  function DigitsEnd(s: seq<byte>, i: nat): (e: nat)
    requires i <= |s|
    ensures i <= e <= |s|
    ensures forall k :: i <= k < e ==> IsDigit(s[k])
    ensures e < |s| ==> !IsDigit(s[e])
    decreases |s| - i
  {
    if i < |s| && IsDigit(s[i]) then DigitsEnd(s, i + 1) else i
  }

  function DigitsValue(s: seq<byte>, i: nat, j: nat): int
    requires i <= j <= |s|
  {
    if i == j then 0 else 10 * DigitsValue(s, i, j - 1) + (s[j - 1] as int - 48)
  }

  function Pow10(e: int): real
    decreases if e < 0 then -e else e
  {
    if e == 0 then 1.0
    else if e > 0 then 10.0 * Pow10(e - 1)
    else Pow10(e + 1) / 10.0
  }

  predicate IsSign(b: byte) { b == 43 || b == MINUS }

  /** End of an exponent that starts at `i`; `i` itself when there is none. */
  function ExponentEnd(s: seq<byte>, i: nat): (e: nat)
    requires i <= |s|
    ensures i <= e <= |s|
  {
    if i < |s| && (s[i] == 101 || s[i] == 69) then
      var k := if i + 1 < |s| && IsSign(s[i + 1]) then i + 2 else i + 1;
      if DigitsEnd(s, k) > k then DigitsEnd(s, k) else i
    else i
  }

  function ExponentValue(s: seq<byte>, i: nat, e: nat): int
    requires i <= e <= |s|
  {
    if e < i + 2 then 0
    else if IsSign(s[i + 1]) then
      (if s[i + 1] == MINUS then -1 else 1) * DigitsValue(s, i + 2, e)
    else DigitsValue(s, i + 1, e)
  }

  /** `strtod` over exact reals: the value of the longest decimal prefix, and its length. */
  function Strtod(s: seq<byte>): (r: Option<(real, nat)>)
    ensures r.Some? ==> 0 < r.value.1 <= |s|
  {
    var i0 := if s != [] && IsSign(s[0]) then 1 else 0;
    var i1 := DigitsEnd(s, i0);
    var point := i1 < |s| && s[i1] == 46;
    var i2 := if point then DigitsEnd(s, i1 + 1) else i1;
    var frac := if point then i2 - i1 - 1 else 0;
    if i1 - i0 + frac == 0 then None
    else
      var end := ExponentEnd(s, i2);
      var mantissa := DigitsValue(s, i0, i1) as real * Pow10(frac)
                      + (if point then DigitsValue(s, i1 + 1, i2) as real else 0.0);
      var magnitude := mantissa * Pow10(ExponentValue(s, i2, end) - frac);
      Some((if i0 == 1 && s[0] == MINUS then -magnitude else magnitude, end))
  }

  /** The parser copies at most this many bytes of a number. */
  const NUMBER_ROOM: nat := 63

  function ParseNumber(c: seq<byte>, o: nat): (r: Outcome<real>)
    requires o <= |c|
    ensures r.Ok? ==> o < r.next <= |c| && r.next <= o + NUMBER_ROOM && IsNumeric(c[r.next - 1])
    ensures r.Ok? ==> forall i :: o <= i < r.next ==> IsNumeric(c[i])
    ensures r.Fail? ==> r.at == o
  {
    var s := c[o..o + NumericRun(c, o, NUMBER_ROOM)];
    match Strtod(s)
    case None => Fail(o)
    case Some((v, n)) => assert s[n - 1] == c[o + n - 1]; Ok(v, o + n)
  }

  // ---------- strings ----------

  /** First pass over a string: the offset of the quote that closes it. */
  function StringEnd(c: seq<byte>, p: nat): (r: Option<nat>)
    requires p <= |c|
    ensures r.Some? ==> p <= r.value < |c| && c[r.value] == QUOTE
    decreases |c| - p
  {
    if p == |c| then None
    else if c[p] == QUOTE then Some(p)
    else if c[p] == BACKSLASH then
      if p + 1 == |c| then None else StringEnd(c, p + 2)
    else StringEnd(c, p + 1)
  }

  function HexValue(b: byte): (v: Option<nat>)
    ensures v.Some? ==> v.value < 16
  {
    if 48 <= b <= 57 then Some(b - 48)
    else if 65 <= b <= 70 then Some(b - 55)
    else if 97 <= b <= 102 then Some(b - 87)
    else None
  }

  /** Four hex digits; zero when one of them is not a hex digit. */
  function Hex4(c: seq<byte>, p: nat): (h: nat)
    requires p + 4 <= |c|
    ensures h < 0x10000
  {
    match (HexValue(c[p]), HexValue(c[p + 1]), HexValue(c[p + 2]), HexValue(c[p + 3]))
    case (Some(a), Some(b), Some(d), Some(e)) => 4096 * a + 256 * b + 16 * d + e
    case _ => 0
  }

  datatype Utf16 = Malformed | Unit(length: nat, codepoint: nat)

  predicate LowSurrogate(u: nat) { 0xDC00 <= u <= 0xDFFF }
  predicate HighSurrogate(u: nat) { 0xD800 <= u <= 0xDBFF }

  /** The one or two `\uXXXX` escapes at `p`, in a string whose closing quote is at `e`. */
  function Utf16At(c: seq<byte>, p: nat, e: nat): (u: Utf16)
    requires p <= e < |c|
    ensures u.Unit? ==> u.length in {6, 12} && p + u.length <= e
    ensures u.Unit? ==> u.codepoint < 0x110000 && !LowSurrogate(u.codepoint) && !HighSurrogate(u.codepoint)
    ensures u.Unit? ==> (u.length == 12 <==> u.codepoint >= 0x10000)
  {
    if e - p < 6 then Malformed
    else
      var first := Hex4(c, p + 2);
      if LowSurrogate(first) then Malformed
      else if HighSurrogate(first) then
        if e - (p + 6) < 6 || c[p + 6] != BACKSLASH || c[p + 7] != 117 then Malformed
        else
          var second := Hex4(c, p + 8);
          if !LowSurrogate(second) then Malformed
          else Unit(12, 0x10000 + first % 0x400 * 0x400 + second % 0x400)
      else Unit(6, first)
  }

  /** The UTF-8 form of a code point, as section 3 of RFC 3629 lays it out. */
  function EncodeUtf8(cp: nat): (s: seq<byte>)
    requires cp < 0x110000
    ensures 1 <= |s| <= 4
    ensures |s| <= 3 <==> cp < 0x10000
  {
    if cp < 0x80 then [cp]
    else if cp < 0x800 then [0xC0 + cp / 0x40, 0x80 + cp % 0x40]
    else if cp < 0x10000 then [0xE0 + cp / 0x1000, 0x80 + cp / 0x40 % 0x40, 0x80 + cp % 0x40]
    else [0xF0 + cp / 0x40000, 0x80 + cp / 0x1000 % 0x40, 0x80 + cp / 0x40 % 0x40, 0x80 + cp % 0x40]
  }

  /** The byte that a two-character escape stands for. */
  function SimpleEscape(b: byte): Option<byte> {
    if b == 98 then Some(8)
    else if b == 102 then Some(12)
    else if b == 110 then Some(NEWLINE)
    else if b == 114 then Some(13)
    else if b == 116 then Some(TAB)
    else if b == QUOTE || b == BACKSLASH || b == SLASH then Some(b)
    else None
  }

  datatype Piece = Bad | Piece(length: nat, bytes: seq<byte>)

  /** One step of the second pass: how much it reads and what it writes. */
  function PieceAt(c: seq<byte>, p: nat, e: nat): (r: Piece)
    requires p < e < |c|
    ensures r.Piece? ==> 0 < r.length && p + r.length <= e + 1
  {
    if c[p] != BACKSLASH then Piece(1, [c[p]])
    else if c[p + 1] == 117 then
      match Utf16At(c, p, e)
      case Malformed => Bad
      case Unit(n, cp) => Piece(n, EncodeUtf8(cp))
    else
      match SimpleEscape(c[p + 1])
      case Some(b) => Piece(2, [b])
      case None => Bad
  }

  /** Second pass over a string: the bytes it writes. */
  function Unescape(c: seq<byte>, p: nat, e: nat): (r: Outcome<seq<byte>>)
    requires p <= e + 1 && e < |c|
    ensures r.Fail? ==> p <= r.at < e
    decreases e + 1 - p
  {
    if p >= e then Ok([], p)
    else
      match PieceAt(c, p, e)
      case Bad => Fail(p)
      case Piece(n, bytes) =>
        match Unescape(c, p + n, e)
        case Fail(at) => Fail(at)
        case Ok(rest, next) => Ok(bytes + rest, next)
  }

  function ParseString(c: seq<byte>, o: nat): (r: Outcome<seq<byte>>)
    requires o < |c|
    ensures r.Ok? ==> o + 1 < r.next <= |c| && c[r.next - 1] == QUOTE && NulFree(r.value)
    ensures r.Fail? ==> o < r.at <= |c|
  {
    if c[o] != QUOTE then Fail(o + 1)
    else
      match StringEnd(c, o + 1)
      case None => Fail(o + 1)
      case Some(e) =>
        match Unescape(c, o + 1, e)
        case Fail(at) => Fail(at)
        case Ok(bytes, _) => Ok(CString(bytes), e + 1)
  }

  // ---------- values ----------

  function ParseValue(c: seq<byte>, o: nat, depth: nat): (r: Outcome<Json>)
    requires Terminated(c) && o < |c|
    ensures r.Ok? ==> o < r.next < |c|
    ensures r.Fail? ==> o <= r.at <= |c|
    decreases |c| - o, 1
  {
    if HasAt(c, o, NULL_TEXT) then assert c[o..o + 4][3] == c[o + 3]; Ok(Null, o + 4)
    else if HasAt(c, o, FALSE_TEXT) then assert c[o..o + 5][4] == c[o + 4]; Ok(False, o + 5)
    else if HasAt(c, o, TRUE_TEXT) then assert c[o..o + 4][3] == c[o + 3]; Ok(True, o + 4)
    else if c[o] == QUOTE then
      match ParseString(c, o)
      case Fail(at) => Fail(at)
      case Ok(s, next) => Ok(String(s), next)
    else if c[o] == MINUS || IsDigit(c[o]) then
      match ParseNumber(c, o)
      case Fail(at) => Fail(at)
      case Ok(v, next) => Ok(Number(v), next)
    else if c[o] == LBRACKET then ParseArray(c, o, depth)
    else if c[o] == LBRACE then ParseObject(c, o, depth)
    else Fail(o)
  }

  function ParseArray(c: seq<byte>, o: nat, depth: nat): (r: Outcome<Json>)
    requires Terminated(c) && o < |c| && c[o] == LBRACKET
    ensures r.Ok? ==> o < r.next < |c| && r.value.Array?
    ensures r.Fail? ==> o <= r.at <= |c|
    decreases |c| - o, 0
  {
    if depth >= NESTING_LIMIT then Fail(o)
    else
      var first := Skip(c, o + 1);
      if c[first] == RBRACKET then Ok(Array([]), first + 1)
      else
        match ParseItems(c, first, depth + 1)
        case Fail(at) => Fail(at)
        case Ok(items, next) => Ok(Array(items), next)
  }

  /** The items of an array from `p`, the offset after `[` or after a comma. */
  function ParseItems(c: seq<byte>, p: nat, depth: nat): (r: Outcome<seq<Json>>)
    requires Terminated(c) && p < |c|
    ensures r.Ok? ==> p < r.next < |c| && |r.value| > 0
    ensures r.Fail? ==> p <= r.at <= |c|
    decreases |c| - p, 2
  {
    match ParseValue(c, Skip(c, p), depth)
    case Fail(at) => Fail(at)
    case Ok(v, next) =>
      var m := Skip(c, next);
      if c[m] == COMMA then
        match ParseItems(c, m + 1, depth)
        case Fail(at) => Fail(at)
        case Ok(rest, end) => Ok([v] + rest, end)
      else if c[m] == RBRACKET then Ok([v], m + 1)
      else Fail(m)
  }

  function ParseObject(c: seq<byte>, o: nat, depth: nat): (r: Outcome<Json>)
    requires Terminated(c) && o < |c| && c[o] == LBRACE
    ensures r.Ok? ==> o < r.next < |c| && r.value.Object?
    ensures r.Fail? ==> o <= r.at <= |c|
    decreases |c| - o, 0
  {
    if depth >= NESTING_LIMIT then Fail(o)
    else
      var first := Skip(c, o + 1);
      if c[first] == RBRACE then Ok(Object([]), first + 1)
      else
        match ParseMembers(c, first, depth + 1)
        case Fail(at) => Fail(at)
        case Ok(members, next) => Ok(Object(members), next)
  }

  /** A key, its colon, and the offset where its value starts. */
  function ParseKey(c: seq<byte>, p: nat): (r: Outcome<seq<byte>>)
    requires Terminated(c) && p < |c|
    ensures r.Ok? ==> p < r.next < |c|
    ensures r.Fail? ==> p <= r.at <= |c|
  {
    match ParseString(c, Skip(c, p))
    case Fail(at) => Fail(at)
    case Ok(key, next) =>
      var m := Skip(c, next);
      if c[m] != COLON then Fail(m) else Ok(key, Skip(c, m + 1))
  }

  /** One member, and the offset of what follows it. */
  function ParseMember(c: seq<byte>, p: nat, depth: nat): (r: Outcome<Member>)
    requires Terminated(c) && p < |c|
    ensures r.Ok? ==> p < r.next < |c|
    ensures r.Fail? ==> p <= r.at <= |c|
    decreases |c| - p, 2
  {
    match ParseKey(c, p)
    case Fail(at) => Fail(at)
    case Ok(key, start) =>
      match ParseValue(c, start, depth)
      case Fail(at) => Fail(at)
      case Ok(v, next) => Ok(Member(key, v), Skip(c, next))
  }

  /** The members of an object from `p`, the offset after `{` or after a comma. */
  function ParseMembers(c: seq<byte>, p: nat, depth: nat): (r: Outcome<seq<Member>>)
    requires Terminated(c) && p < |c|
    ensures r.Ok? ==> p < r.next < |c| && |r.value| > 0
    ensures r.Fail? ==> p <= r.at <= |c|
    decreases |c| - p, 3
  {
    match ParseMember(c, p, depth)
    case Fail(at) => Fail(at)
    case Ok(member, m) =>
      if c[m] == COMMA then
        match ParseMembers(c, m + 1, depth)
        case Fail(at) => Fail(at)
        case Ok(rest, end) => Ok([member] + rest, end)
      else if c[m] == RBRACE then Ok([member], m + 1)
      else Fail(m)
  }

  // ---------- whole texts ----------

  const BOM: seq<byte> := [0xEF, 0xBB, 0xBF]

  predicate HasBom(c: seq<byte>) {
    4 < |c| && c[..3] == BOM
  }

  function Clamp(at: nat, limit: nat): nat {
    if at < limit then at else limit
  }

  /** Parsing a C string; the offset in the outcome is the one reported to the caller. */
  function ParseText(value: seq<byte>, requireNullTerminated: bool): (r: Outcome<Json>)
    ensures r.Ok? ==> r.next <= |value|
    ensures r.Fail? ==> r.at <= |value|
  {
    var c := value + [NUL];
    match ParseValue(c, Skip(c, if HasBom(c) then 3 else 0), 0)
    case Fail(at) => Fail(Clamp(at, |value|))
    case Ok(v, next) =>
      if !requireNullTerminated then Ok(v, next)
      else if c[Skip(c, next)] == NUL then Ok(v, Skip(c, next))
      else Fail(Skip(c, next))
  }
}
