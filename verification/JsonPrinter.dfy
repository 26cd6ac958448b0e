/**
 The cJSON printer: a buffer that may grow, and methods that print a heap tree into
 it. Each is proved to write exactly the rendering of the tree's value, and to fail
 exactly when that rendering does not fit.
 */
module JsonPrinter {
  import opened Bytes
  import opened JsonRender
  import opened JsonNode
  import opened JsonTree
  import V = JsonValue
  import R = JsonRoundTrip

  class PrintBuffer {
    var buffer: array<byte>
    var length: nat
    var offset: nat
    var depth: nat
    const noalloc: bool
    const format: bool

    constructor (length: nat, noalloc: bool, format: bool)
      requires length <= INT_MAX
      ensures this.length == length && offset == 0 && depth == 0
      ensures this.noalloc == noalloc && this.format == format
      ensures Valid() && fresh(buffer)
    {
      this.buffer := new byte[length];
      this.length := length;
      this.offset := 0;
      this.depth := 0;
      this.noalloc := noalloc;
      this.format := format;
    }

    /** A buffer that the caller owns. */
    constructor Over(buffer: array<byte>, format: bool)
      requires buffer.Length <= INT_MAX
      ensures this.buffer == buffer && length == buffer.Length && offset == 0 && depth == 0
      ensures noalloc && this.format == format && Valid()
    {
      this.buffer := buffer;
      this.length := buffer.Length;
      this.offset := 0;
      this.depth := 0;
      this.noalloc := true;
      this.format := format;
    }

    ghost predicate Valid()
      reads `buffer, `length, `offset
    {
      && buffer.Length == length <= INT_MAX
      && (length == 0 ==> offset == 0)
      && (length > 0 ==> offset < length)
    }

    /** The most bytes the buffer can come to hold. */
    ghost function Capacity(): int
      reads `length
    {
      if noalloc then length else INT_MAX
    }

    /** The bytes printed so far. */
    ghost function Done(): (r: seq<byte>)
      requires Valid()
      reads `buffer, `length, `offset, buffer
      ensures |r| == offset
    {
      buffer[..offset]
    }

    /** `text` and its terminator are in the buffer, and the offset is somewhere inside `text`. */
    ghost predicate Holds(text: seq<byte>)
      reads `buffer, `length, `offset, buffer
    {
      && Valid() && offset <= |text| < length
      && buffer[..|text|] == text && buffer[|text|] == NUL
      && NulFree(text[offset..])
    }

    /** Make room for `needed` more bytes and a terminator, moving to a larger buffer if that is allowed. */
    method Ensure(needed: nat) returns (ok: bool)
      requires Valid()
      modifies this
      ensures Valid() && (buffer == old(buffer) || fresh(buffer))
      ensures offset == old(offset) && depth == old(depth)
      ensures ok <==> offset + needed + 1 <= Capacity()
      ensures ok ==> offset + needed + 1 <= length && Done() == old(Done())
      ensures !ok || noalloc ==> buffer == old(buffer) && length == old(length)
    {
      if length > 0 && offset >= length {
        return false;
      }
      if needed > INT_MAX {
        return false;
      }
      var total := needed + offset + 1;
      if total <= length {
        return true;
      }
      if noalloc {
        return false;
      }
      var newsize;
      if total > INT_MAX / 2 {
        if total <= INT_MAX {
          newsize := INT_MAX;
        } else {
          return false;
        }
      } else {
        newsize := total * 2;
      }
      var newbuffer := new byte[newsize];
      forall i | 0 <= i < length {
        newbuffer[i] := buffer[i];
      }
      length := newsize;
      buffer := newbuffer;
      return true;
    }

    /** Move the offset to the terminator of what was printed last. */
    method UpdateOffset(ghost text: seq<byte>)
      requires Holds(text)
      modifies this`offset
      ensures Valid() && offset == |text| && Done() == text
    {
      var n := 0;
      while buffer[offset + n] != NUL
        invariant offset + n <= |text|
        decreases |text| - n
      {
        assert buffer[..|text|][offset + n] == text[offset + n];
        n := n + 1;
      }
      offset := offset + n;
    }

    /** Copy `s` to the buffer from position `at`. */
    method Put(at: nat, s: seq<byte>)
      requires at + |s| <= buffer.Length
      modifies buffer
      ensures buffer[..at + |s|] == old(buffer[..at]) + s
    {
      for i := 0 to |s|
        invariant buffer[..at + i] == old(buffer[..at]) + s[..i]
      {
        buffer[at + i] := s[i];
        assert buffer[..at + i + 1] == buffer[..at + i] + [s[i]];
      }
    }
  }

  // ---------- strings without terminators ----------

  lemma {:induction false} NulFreeConcat(a: seq<byte>, b: seq<byte>)
    ensures NulFree(a + b) <==> NulFree(a) && NulFree(b)
  {
    if NulFree(a + b) {
      forall i | 0 <= i < |a| ensures a[i] != NUL { assert (a + b)[i] == a[i]; }
      forall i | 0 <= i < |b| ensures b[i] != NUL { assert (a + b)[|a| + i] == b[i]; }
    }
  }

  lemma {:induction false} EscapeAllNulFree(s: seq<byte>)
    requires NulFree(s)
    ensures NulFree(EscapeAll(s))
  {
    if s != [] {
      EscapeAllNulFree(s[1..]);
      assert NulFree(Escape(s[0]));
      NulFreeConcat(Escape(s[0]), EscapeAll(s[1..]));
    }
  }

  lemma {:induction false} QuotedNulFree(s: seq<byte>)
    requires NulFree(s)
    ensures NulFree(Quoted(s))
  {
    EscapeAllNulFree(s);
    NulFreeConcat([QUOTE], EscapeAll(s));
    NulFreeConcat([QUOTE] + EscapeAll(s), [QUOTE]);
  }

  // ---------- literals, numbers, strings ----------

  /** What every print method promises about the text it is to append. */
  ghost predicate Fits(p: PrintBuffer, text: seq<byte>)
    reads p
  {
    p.offset + |text| + 2 <= p.Capacity()
  }

  twostate predicate Printed(p: PrintBuffer, ok: bool, text: seq<byte>)
    requires old(p.Valid())
    reads p, p.buffer
  {
    && p.Valid()
    && (ok <==> old(Fits(p, text)))
    && (ok ==> p.Holds(old(p.Done()) + text) && p.depth == old(p.depth))
    && (p.noalloc ==> p.buffer == old(p.buffer) && p.length == old(p.length))
    && (p.buffer == old(p.buffer) || fresh(p.buffer))
  }

  /** `strcpy` of a constant, with room for one byte more than it needs. */
  method PrintText(p: PrintBuffer, text: seq<byte>) returns (ok: bool)
    requires p.Valid() && NulFree(text)
    modifies p, p.buffer
    ensures Printed(p, ok, text)
  {
    ok := p.Ensure(|text| + 1);
    if ok {
      p.Put(p.offset, text + [NUL]);
      assert old(p.Done()) + (text + [NUL]) == old(p.Done()) + text + [NUL];
      BecomesHeld(p, old(p.Done()), text);
    }
  }

  /** `sprintf("%1.15g")` of a whole number, copied into the buffer. */
  method PrintNumber(v: real, p: PrintBuffer) returns (ok: bool)
    requires p.Valid() && V.PlainInteger(v)
    modifies p, p.buffer
    ensures Printed(p, ok, Decimal(v.Floor))
  {
    var text := Decimal(v.Floor);
    R.DecimalFits(v.Floor);
    ghost var done := p.Done();
    if |text| > 25 {
      return false;
    }
    ok := p.Ensure(|text| + 1);
    if ok {
      p.Put(p.offset, text + [NUL]);
      ghost var all := done + text;
      assert p.buffer[..|all| + 1] == all + [NUL];
      assert p.buffer[..|all|] == p.buffer[..|all| + 1][..|all|];
      p.offset := p.offset + |text|;
    }
  }

  lemma {:induction false} EscapeAllConcat(a: seq<byte>, b: seq<byte>)
    ensures EscapeAll(a + b) == EscapeAll(a) + EscapeAll(b)
    decreases |a|
  {
    hide Escape;
    if a == [] {
      assert a + b == b;
    } else {
      assert (a + b)[1..] == a[1..] + b;
      EscapeAllConcat(a[1..], b);
    }
  }

  lemma {:induction false} EscapeAllSnoc(s: seq<byte>, i: nat)
    requires i < |s|
    ensures EscapeAll(s[..i + 1]) == EscapeAll(s[..i]) + Escape(s[i])
    ensures EscapeAll(s) == EscapeAll(s[..i]) + EscapeAll(s[i..])
  {
    hide EscapeAll, Escape;
    EscapeAllConcat(s[..i], [s[i]]);
    assert s[..i + 1] == s[..i] + [s[i]];
    OneEscape(s[i]);
    EscapeAllConcat(s[..i], s[i..]);
    assert s == s[..i] + s[i..];
  }

  lemma OneEscape(b: byte)
    ensures EscapeAll([b]) == Escape(b)
  {
    hide Escape;
    assert [b][1..] == [] && Escape(b) + [] == Escape(b);
  }

  lemma EscapeSize(b: byte)
    ensures |Escape(b)| == if b in {QUOTE, BACKSLASH, 8, 12, NEWLINE, 13, TAB} then 2 else if b < 32 then 6 else 1
    ensures |Escape(b)| == 1 ==> Escape(b) == [b]
  {
  }

  lemma NothingEscaped()
    ensures EscapeAll([]) == []
  {
  }

  /** First pass over a string: how many bytes its escapes add. */
  method CountEscapes(s: seq<byte>) returns (extra: nat)
    ensures |EscapeAll(s)| == |s| + extra
    ensures extra == 0 ==> EscapeAll(s) == s
  {
    hide EscapeAll, Escape;
    extra := 0;
    NothingEscaped();
    assert s[..0] == [];
    for i := 0 to |s|
      invariant |EscapeAll(s[..i])| == i + extra
      invariant extra == 0 ==> EscapeAll(s[..i]) == s[..i]
    {
      EscapeAllSnoc(s, i);
      var b := s[i];
      EscapeSize(b);
      if b == QUOTE || b == BACKSLASH || b == 8 || b == 12 || b == NEWLINE || b == 13 || b == TAB {
        extra := extra + 1;
      } else if b < 32 {
        extra := extra + 5;
      } else {
        assert s[..i + 1] == s[..i] + [b];
      }
    }
    assert s[..|s|] == s;
  }

  /** Write one byte of a string, escaped if need be, from position `at`. */
  method PutEscaped(p: PrintBuffer, at: nat, b: byte) returns (next: nat)
    requires at + |Escape(b)| < p.buffer.Length
    modifies p.buffer
    ensures next == at + |Escape(b)|
    ensures p.buffer[..next] == old(p.buffer[..at]) + Escape(b)
  {
    if b > 31 && b != QUOTE && b != BACKSLASH {
      p.Put(at, [b]);
      return at + 1;
    }
    if b == BACKSLASH || b == QUOTE {
      p.Put(at, [BACKSLASH, b]);
    } else if b == 8 {
      p.Put(at, [BACKSLASH, 98]);
    } else if b == 12 {
      p.Put(at, [BACKSLASH, 102]);
    } else if b == NEWLINE {
      p.Put(at, [BACKSLASH, 110]);
    } else if b == 13 {
      p.Put(at, [BACKSLASH, 114]);
    } else if b == TAB {
      p.Put(at, [BACKSLASH, 116]);
    } else {
      // sprintf also writes a terminator, which the next byte replaces
      p.Put(at, [BACKSLASH, 117, 48, 48, HexDigit(b / 16), HexDigit(b % 16)]);
      p.buffer[at + 6] := NUL;
      return at + 6;
    }
    return at + 2;
  }

  /** Second pass over a string: the escaped bytes, from position `at`. */
  method PutAllEscaped(p: PrintBuffer, at: nat, s: seq<byte>)
    requires at + |EscapeAll(s)| < p.buffer.Length
    modifies p.buffer
    ensures p.buffer[..at + |EscapeAll(s)|] == old(p.buffer[..at]) + EscapeAll(s)
  {
    hide Escape;
    var pos := at;
    ghost var before := p.buffer[..at];
    for i := 0 to |s|
      invariant pos == at + |EscapeAll(s[..i])| && pos < p.buffer.Length
      invariant p.buffer[..pos] == before + EscapeAll(s[..i])
    {
      EscapeAllSnoc(s, i);
      EscapeFits(s, i);
      pos := PutEscaped(p, pos, s[i]);
    }
    assert s[..|s|] == s;
  }

  lemma {:induction false} EscapeFits(s: seq<byte>, i: nat)
    requires i < |s|
    ensures |EscapeAll(s[..i])| + |Escape(s[i])| <= |EscapeAll(s)|
  {
    EscapeAllSnoc(s, i);
    assert EscapeAll(s[i..]) == Escape(s[i..][0]) + EscapeAll(s[i..][1..]);
  }

  lemma {:induction false} QuotedEmpty()
    ensures Quoted([]) == [QUOTE, QUOTE]
  {
    assert EscapeAll([]) == [];
  }

  /** Both branches of the string printer, once there is room. */
  method PutQuoted(p: PrintBuffer, s: seq<byte>, extra: nat)
    requires |EscapeAll(s)| == |s| + extra && (extra == 0 ==> EscapeAll(s) == s)
    requires p.offset + |s| + extra + 3 <= p.buffer.Length
    modifies p.buffer
    ensures p.buffer[..p.offset + |s| + extra + 3] == old(p.buffer[..p.offset]) + Quoted(s) + [NUL]
  {
    hide EscapeAll, Escape;
    var o, outputLength := p.offset, |s| + extra;
    ghost var done := p.buffer[..o];
    if extra == 0 {
      p.Put(o, [QUOTE] + s + [QUOTE, NUL]);
      assert done + ([QUOTE] + s + [QUOTE, NUL]) == done + Quoted(s) + [NUL];
    } else {
      p.Put(o, [QUOTE]);
      PutAllEscaped(p, o + 1, s);
      p.Put(o + outputLength + 1, [QUOTE, NUL]);
      assert done + [QUOTE] + EscapeAll(s) + [QUOTE, NUL] == done + Quoted(s) + [NUL];
    }
  }

  method PrintStringPtr(input: Option<seq<byte>>, p: PrintBuffer) returns (ok: bool)
    requires p.Valid() && NulFree(Text(input))
    modifies p, p.buffer
    ensures Printed(p, ok, Quoted(Text(input)))
  {
    hide EscapeAll, Escape;
    if input == None {
      QuotedEmpty();
      ok := PrintText(p, [QUOTE, QUOTE]);
      return;
    }
    var s := input.value;
    var extra := CountEscapes(s);
    ok := p.Ensure(|s| + extra + 3);
    if ok {
      PutQuoted(p, s, extra);
      QuotedNulFree(s);
      BecomesHeld(p, old(p.Done()), Quoted(s));
    }
  }

  /** Text and terminator written behind the offset. */
  lemma {:induction false} BecomesHeld(p: PrintBuffer, done: seq<byte>, text: seq<byte>)
    requires p.Valid() && p.offset == |done| && NulFree(text) && |done| + |text| < p.length
    requires p.buffer[..|done| + |text| + 1] == done + text + [NUL]
    ensures p.Holds(done + text)
  {
    var all := done + text;
    assert p.buffer[..|all|] == p.buffer[..|all| + 1][..|all|];
    assert p.buffer[|all|] == p.buffer[..|all| + 1][|all|];
    assert all[|done|..] == text;
  }
}
