/**
 The cJSON parser: methods that advance an offset through the text and build items
 on the heap. Each is proved to do what the function of the same name in JsonSyntax
 says, and to leave a tree of the shape the rest of the library relies on.
 */
module JsonReader {
  import opened Bytes
  import opened JsonRender
  import opened JsonAllocation
  import opened JsonNode
  import opened JsonTree
  import S = JsonSyntax
  import V = JsonValue

  class ParseBuffer {
    const content: seq<byte>
    var offset: nat
    var depth: nat

    constructor (content: seq<byte>)
      ensures this.content == content && offset == 0 && depth == 0
    {
      this.content := content;
      offset, depth := 0, 0;
    }

    method SkipWhitespace()
      requires offset <= |content|
      modifies `offset
      ensures offset == S.Skip(content, old(offset))
    {
      if offset >= |content| {
        return;
      }
      while offset < |content| && content[offset] <= 32
        invariant old(offset) <= offset <= |content|
        invariant S.SpacesEnd(content, old(offset)) == S.SpacesEnd(content, offset)
        decreases |content| - offset
      {
        offset := offset + 1;
      }
      if offset == |content| {
        offset := offset - 1;
      }
    }
  }

  // ---------- numbers ----------

  /** Saturating conversion to a C `int`, toward zero. */
  function ValueInt(v: real): (r: int)
    ensures INT_MIN <= r <= INT_MAX
    ensures INT_MIN as real <= v <= INT_MAX as real ==>
              V.Magnitude(v - r as real) < 1.0 && V.Magnitude(r as real) <= V.Magnitude(v) && (r != 0 ==> (r < 0 <==> v < 0.0))
    ensures v > INT_MAX as real ==> r == INT_MAX
    ensures v < INT_MIN as real ==> r == INT_MIN
    ensures v == v.Floor as real && INT_MIN <= v.Floor <= INT_MAX ==> r as real == v
  {
    if v >= 2147483647.0 then 2147483647
    else if v <= -2147483648.0 then -2147483648
    else if v < 0.0 then -(-v).Floor
    else v.Floor
  }

  method ParseNumber(item: Node, buf: ParseBuffer) returns (ok: bool)
    requires buf.offset <= |buf.content|
    modifies item`kind, item`valueint, item`valuedouble, buf`offset
    ensures var r := S.ParseNumber(buf.content, old(buf.offset));
            && ok == r.Ok?
            && buf.offset == (if ok then r.next else r.at)
            && (ok ==> item.kind == Number && item.valuedouble == r.value && item.valueint == ValueInt(r.value))
  {
    hide S.Strtod, S.NumericRun;
    var o := buf.offset;
    var text, i := CopyNumber(buf.content, o, S.NUMBER_ROOM);
    var number := S.Strtod(text[..i]);
    if number == None {
      return false;
    }
    item.valuedouble := number.value.0;
    item.valueint := ValueInt(number.value.0);
    item.kind := Number;
    buf.offset := o + number.value.1;
    return true;
  }

  /** The numeric bytes at `o`, copied into a buffer that `strtod` can read. */
  method CopyNumber(c: seq<byte>, o: nat, room: nat) returns (text: array<byte>, i: nat)
    requires o <= |c|
    ensures i < text.Length && text[i] == NUL
    ensures i == S.NumericRun(c, o, room) && text[..i] == c[o..o + i]
  {
    text := new byte[room + 1];
    i := 0;
    while i < room && o + i < |c| && S.IsNumeric(c[o + i])
      invariant i <= room && o + i <= |c|
      invariant S.NumericRun(c, o, room) == i + S.NumericRun(c, o + i, room - i)
      invariant forall k :: 0 <= k < i ==> text[k] == c[o + k]
    {
      text[i] := c[o + i];
      i := i + 1;
    }
    text[i] := NUL;
  }

  // ---------- strings ----------

  method ParseHex4(c: seq<byte>, p: nat) returns (h: nat)
    requires p + 4 <= |c|
    ensures h == S.Hex4(c, p)
  {
    h := 0;
    var i := 0;
    while i < 4
      invariant 0 <= i <= 4
      invariant i >= 1 ==> S.HexValue(c[p]).Some?
      invariant i >= 2 ==> S.HexValue(c[p + 1]).Some?
      invariant i >= 3 ==> S.HexValue(c[p + 2]).Some?
      invariant i == 0 ==> h == 0
      invariant i == 1 ==> h == 16 * S.HexValue(c[p]).value
      invariant i == 2 ==> h == 256 * S.HexValue(c[p]).value + 16 * S.HexValue(c[p + 1]).value
      invariant i == 3 ==> h == 4096 * S.HexValue(c[p]).value + 256 * S.HexValue(c[p + 1]).value
                               + 16 * S.HexValue(c[p + 2]).value
      invariant i == 4 ==> h == S.Hex4(c, p)
    {
      var b := c[p + i];
      if 48 <= b <= 57 {
        h := h + (b - 48);
      } else if 65 <= b <= 70 {
        h := h + (10 + b - 65);
      } else if 97 <= b <= 102 {
        h := h + (10 + b - 97);
      } else {
        return 0;
      }
      if i < 3 {
        h := h * 16;
      }
      i := i + 1;
    }
  }

  /**
   The UTF-16 escape at `p` written as UTF-8 at `output[out..]`. Returns how many
   bytes of text it read, zero when it is malformed.
   */
  method Utf16LiteralToUtf8(c: seq<byte>, p: nat, e: nat, output: array<byte>, out: nat)
    returns (sequenceLength: nat, newOut: nat)
    requires p <= e < |c|
    requires out <= output.Length
    requires var u := S.Utf16At(c, p, e); u.Unit? ==> out + |S.EncodeUtf8(u.codepoint)| <= output.Length
    modifies output
    ensures match S.Utf16At(c, p, e)
            case Malformed => sequenceLength == 0
            case Unit(n, cp) =>
              && sequenceLength == n
              && newOut == out + |S.EncodeUtf8(cp)|
              && output[..newOut] == old(output[..out]) + S.EncodeUtf8(cp)
  {
    hide S.EncodeUtf8, S.Hex4;
    newOut := out;
    if e - p < 6 {
      return 0, out;
    }
    var firstCode := ParseHex4(c, p + 2);
    if S.LowSurrogate(firstCode) {
      return 0, out;
    }
    var codepoint := firstCode;
    sequenceLength := 6;
    if S.HighSurrogate(firstCode) {
      var second := p + 6;
      sequenceLength := 12;
      if e - second < 6 {
        return 0, out;
      }
      if c[second] != BACKSLASH || c[second + 1] != 117 {
        return 0, out;
      }
      var secondCode := ParseHex4(c, second + 2);
      if !S.LowSurrogate(secondCode) {
        return 0, out;
      }
      codepoint := 0x10000 + firstCode % 0x400 * 0x400 + secondCode % 0x400;
    }
    newOut := WriteUtf8(codepoint, output, out);
  }

  /** A code point without its last k groups of six bits. */
  function Rest(cp: nat, k: nat): nat {
    if k == 0 then cp else Rest(cp, k - 1) / 0x40
  }

  /** Which group of six bits each byte of an encoding holds. */
  lemma EncodingByGroups(cp: nat, mark: nat)
    requires cp < 0x110000
    requires mark == if cp < 0x80 then 0 else if cp < 0x800 then 0xC0 else if cp < 0x10000 then 0xE0 else 0xF0
    ensures var s := S.EncodeUtf8(cp);
            && s[0] == mark + Rest(cp, |s| - 1)
            && forall j :: 0 < j < |s| ==> s[j] == 0x80 + Rest(cp, |s| - 1 - j) % 0x40
  {
    var k := 0;
    assert Rest(cp, k) == cp && Rest(cp, k + 1) == cp / 0x40;
    assert Rest(cp, k + 2) == cp / 0x1000;
    assert Rest(cp, k + 3) == cp / 0x40000;
  }

  /** Continuation bytes from the last to the second, then the first byte with its mark. */
  method WriteUtf8(cp: nat, output: array<byte>, out: nat) returns (newOut: nat)
    requires cp < 0x110000 && out + |S.EncodeUtf8(cp)| <= output.Length
    modifies output
    ensures newOut == out + |S.EncodeUtf8(cp)|
    ensures output[..newOut] == old(output[..out]) + S.EncodeUtf8(cp)
  {
    hide S.EncodeUtf8, Rest;
    EncodingLength(cp);
    var codepoint := cp;
    var length, mark := 1, 0;
    if codepoint < 0x80 {
    } else if codepoint < 0x800 {
      length, mark := 2, 0xC0;
    } else if codepoint < 0x10000 {
      length, mark := 3, 0xE0;
    } else {
      length, mark := 4, 0xF0;
    }
    ghost var s := S.EncodeUtf8(cp);
    EncodingByGroups(cp, mark);
    RestStep(cp, 0);
    var position := length - 1;
    while position > 0
      invariant 0 <= position < length
      invariant forall k :: position < k < length ==> output[out + k] == s[k]
      invariant output[..out] == old(output[..out])
      invariant codepoint == Rest(cp, length - 1 - position)
      decreases position
    {
      RestStep(cp, length - 1 - position);
      output[out + position] := 0x80 + codepoint % 0x40;
      codepoint := codepoint / 0x40;
      position := position - 1;
    }
    output[out] := mark + codepoint;
    newOut := out + length;
    assert output[out..newOut] == s;
    assert output[..newOut] == output[..out] + output[out..newOut];
  }

  lemma EncodingLength(cp: nat)
    requires cp < 0x110000
    ensures |S.EncodeUtf8(cp)| == if cp < 0x80 then 1 else if cp < 0x800 then 2 else if cp < 0x10000 then 3 else 4
  {
  }

  lemma RestStep(cp: nat, k: nat)
    ensures Rest(cp, 0) == cp && Rest(cp, k + 1) == Rest(cp, k) / 0x40
  {
  }

  /** One round of the second pass. Returns zero when the escape is malformed. */
  method CopyPiece(c: seq<byte>, p: nat, e: nat, output: array<byte>, out: nat)
    returns (sequenceLength: nat, newOut: nat)
    requires p < e < |c| && out < output.Length
    requires var r := S.PieceAt(c, p, e); r.Piece? ==> out + |r.bytes| <= output.Length
    modifies output
    ensures match S.PieceAt(c, p, e)
            case Bad => sequenceLength == 0
            case Piece(n, bytes) =>
              && sequenceLength == n
              && newOut == out + |bytes|
              && output[..newOut] == old(output[..out]) + bytes
  {
    newOut := out;
    if c[p] != BACKSLASH {
      output[out] := c[p];
      return 1, out + 1;
    }
    sequenceLength := 2;
    var b := c[p + 1];
    if b == 98 {
      output[out] := 8;
    } else if b == 102 {
      output[out] := 12;
    } else if b == 110 {
      output[out] := NEWLINE;
    } else if b == 114 {
      output[out] := 13;
    } else if b == 116 {
      output[out] := TAB;
    } else if b == QUOTE || b == BACKSLASH || b == SLASH {
      output[out] := b;
    } else if b == 117 {
      sequenceLength, newOut := Utf16LiteralToUtf8(c, p, e, output, out);
      return;
    } else {
      return 0, out;
    }
    newOut := out + 1;
  }

  function Prepend(done: seq<byte>, r: S.Outcome<seq<byte>>): S.Outcome<seq<byte>> {
    match r
    case Fail(at) => S.Fail(at)
    case Ok(rest, next) => S.Ok(done + rest, next)
  }

  /** First pass: the closing quote, and how many bytes escapes save. */
  method ScanString(c: seq<byte>, o: nat) returns (end: Option<nat>, skipped: nat)
    requires o < |c|
    ensures end == S.StringEnd(c, o + 1)
    ensures end.Some? ==> skipped == Escapes(c, o + 1, end.value, false)
  {
    skipped := 0;
    var inputEnd := o + 1;
    ghost var target := S.StringEnd(c, o + 1);
    while inputEnd < |c| && c[inputEnd] != QUOTE
      invariant o + 1 <= inputEnd <= |c|
      invariant S.StringEnd(c, inputEnd) == target
      invariant target.Some? ==> skipped + Escapes(c, inputEnd, target.value, false) == Escapes(c, o + 1, target.value, false)
      decreases |c| - inputEnd
    {
      if c[inputEnd] == BACKSLASH {
        if inputEnd + 1 >= |c| {
          return None, skipped;
        }
        skipped := skipped + 1;
        inputEnd := inputEnd + 1;
      }
      inputEnd := inputEnd + 1;
    }
    if inputEnd >= |c| {
      return None, skipped;
    }
    return Some(inputEnd), skipped;
  }

  lemma {:induction false} PrependPiece(c: seq<byte>, p: nat, e: nat, done: seq<byte>)
    requires p < e < |c|
    ensures match S.PieceAt(c, p, e)
            case Bad => Prepend(done, S.Unescape(c, p, e)) == S.Fail(p)
            case Piece(n, bytes) =>
              Prepend(done, S.Unescape(c, p, e)) == Prepend(done + bytes, S.Unescape(c, p + n, e))
  {
    hide S.PieceAt;
    match S.PieceAt(c, p, e)
    case Bad =>
    case Piece(n, bytes) =>
      match S.Unescape(c, p + n, e)
      case Fail(_) =>
      case Ok(rest, _) => assert done + (bytes + rest) == done + bytes + rest;
  }

  lemma {:induction false} PrependNothing(r: S.Outcome<seq<byte>>)
    ensures Prepend([], r) == r
  {
    if r.Ok? {
      assert [] + r.value == r.value;
    }
  }

  /** Second pass, into a buffer of exactly the size the first pass computed. */
  method UnescapeInto(c: seq<byte>, o: nat, e: nat, output: array<byte>) returns (ok: bool, at: nat, length: nat)
    requires o < e < |c| && output.Length == Allocation(c, o, e)
    modifies output
    ensures match S.Unescape(c, o + 1, e)
            case Fail(p) => !ok && at == p
            case Ok(bytes, _) => ok && length < output.Length && output[..length] == bytes
  {
    hide S.PieceAt;
    var p := o + 1;
    length := 0;
    ghost var inside := false;
    ghost var all := S.Unescape(c, o + 1, e);
    ghost var saved := Escapes(c, o + 1, e, false);
    PrependNothing(all);
    assert output[..0] == [];
    while p < e
      invariant o + 1 <= p <= e + 1
      invariant length + saved <= p - (o + 1) + Escapes(c, p, e, inside)
      invariant length < output.Length
      invariant all == Prepend(output[..length], S.Unescape(c, p, e))
      decreases e + 1 - p
    {
      PrependPiece(c, p, e, output[..length]);
      inside := PieceFits(c, p, e, inside);
      var n, newLength := CopyPiece(c, p, e, output, length);
      if n == 0 {
        return false, p, length;
      }
      p, length := p + n, newLength;
    }
    assert output[..length] + [] == output[..length];
    return true, p, length;
  }

  method ParseString(item: Node, buf: ParseBuffer) returns (ok: bool)
    requires buf.offset < |buf.content|
    modifies item`kind, item`valuestring, buf`offset
    ensures var r := S.ParseString(buf.content, old(buf.offset));
            && ok == r.Ok?
            && buf.offset == (if ok then r.next else r.at)
            && (ok ==> item.kind == String && item.valuestring == Some(r.value))
  {
    var c, o := buf.content, buf.offset;
    if c[o] != QUOTE {
      buf.offset := o + 1;
      return false;
    }
    var end, skipped := ScanString(c, o);
    if end == None {
      buf.offset := o + 1;
      return false;
    }
    var allocationLength := end.value - o - skipped;
    var output := new byte[allocationLength + 1];
    var at, length;
    ok, at, length := UnescapeInto(c, o, end.value, output);
    if !ok {
      buf.offset := at;
      return false;
    }
    output[length] := NUL;
    item.kind := String;
    item.valuestring := Some(CString(output[..length]));
    buf.offset := end.value + 1;
  }
}
