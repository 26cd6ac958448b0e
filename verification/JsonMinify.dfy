/**
 The in-place minifier: a read cursor, a write cursor behind it, and the pure function
 of the text they compute.
 */
module JsonMinify {
  import opened Bytes

  const STAR: byte := 42

  /** End of a string whose body starts at `i`; only a quote right behind a backslash is taken as escaped. */
  function SpanEnd(c: seq<byte>, i: nat): (e: nat)
    requires i <= |c|
    ensures i <= e <= |c|
    decreases |c| - i
  {
    if i == |c| then i
    else if c[i] == QUOTE then i + 1
    else if c[i] == BACKSLASH && i + 1 < |c| && c[i + 1] == QUOTE then SpanEnd(c, i + 2)
    else SpanEnd(c, i + 1)
  }

  function LineEnd(c: seq<byte>, i: nat): (e: nat)
    requires i <= |c|
    ensures i <= e <= |c|
    decreases |c| - i
  {
    if i == |c| then i
    else if c[i] == NEWLINE then i + 1
    else LineEnd(c, i + 1)
  }

  function CommentEnd(c: seq<byte>, i: nat): (e: nat)
    requires i <= |c|
    ensures i <= e <= |c|
    decreases |c| - i
  {
    if i == |c| then i
    else if c[i] == STAR && i + 1 < |c| && c[i + 1] == SLASH then i + 2
    else CommentEnd(c, i + 1)
  }

  /** What is kept of the text from offset `i` on. */
  function Minified(c: seq<byte>, i: nat): seq<byte>
    requires i <= |c|
    decreases |c| - i
  {
    if i == |c| then []
    else if IsBlank(c[i]) then Minified(c, i + 1)
    else if c[i] == SLASH then
      if i + 1 < |c| && c[i + 1] == SLASH then Minified(c, LineEnd(c, i + 2))
      else if i + 1 < |c| && c[i + 1] == STAR then Minified(c, CommentEnd(c, i + 2))
      else Minified(c, i + 1)
    else if c[i] == QUOTE then
      var e := SpanEnd(c, i + 1);
      c[i..e] + Minified(c, e)
    else [c[i]] + Minified(c, i + 1)
  }

  // ---------- the methods ----------

  /** From `i` on, the array still holds the original text and its terminator. */
  ghost predicate Unread(a: array<byte>, c: seq<byte>, i: nat)
    reads a
  {
    && NulFree(c) && |c| < a.Length && i <= |c|
    && a[|c|] == NUL && (forall k :: i <= k < |c| ==> a[k] == c[k])
  }

  method SkipOnelineComment(a: array<byte>, ghost c: seq<byte>, input: nat) returns (next: nat)
    requires Unread(a, c, input) && input + 2 <= |c|
    ensures next == LineEnd(c, input + 2)
  {
    next := input + 2;
    while a[next] != NUL
      invariant input + 2 <= next <= |c| && LineEnd(c, next) == LineEnd(c, input + 2)
      decreases |c| - next
    {
      if a[next] == NEWLINE {
        return next + 1;
      }
      next := next + 1;
    }
  }

  method SkipMultilineComment(a: array<byte>, ghost c: seq<byte>, input: nat) returns (next: nat)
    requires Unread(a, c, input) && input + 2 <= |c|
    ensures next == CommentEnd(c, input + 2)
  {
    next := input + 2;
    while a[next] != NUL
      invariant input + 2 <= next <= |c| && CommentEnd(c, next) == CommentEnd(c, input + 2)
      decreases |c| - next
    {
      if a[next] == STAR && a[next + 1] == SLASH {
        return next + 2;
      }
      next := next + 1;
    }
  }

  lemma {:induction false} SpanStep(c: seq<byte>, i: nat)
    requires i < |c|
    ensures SpanEnd(c, i) == if c[i] == QUOTE then i + 1
                             else if c[i] == BACKSLASH && i + 1 < |c| && c[i + 1] == QUOTE then SpanEnd(c, i + 2)
                             else SpanEnd(c, i + 1)
    ensures SpanEnd(c, |c|) == |c|
  {
  }

  /** `a` holds `before`, and behind it the bytes of `c` from `input` to `input'`. */
  ghost predicate Copied(a: array<byte>, before: seq<byte>, c: seq<byte>, input: nat, input': nat)
    reads a
  {
    && input <= input' <= |c| && |before| + input' - input <= a.Length
    && (forall k :: 0 <= k < |before| ==> a[k] == before[k])
    && (forall k :: |before| <= k < |before| + input' - input ==> a[k] == c[k - |before| + input])
  }

  lemma {:induction false} CopiedText(a: array<byte>, before: seq<byte>, c: seq<byte>, input: nat, input': nat)
    requires Copied(a, before, c, input, input')
    ensures a[..|before| + input' - input] == before + c[input..input']
  {
  }

  /** Copy one byte from the read cursor to the write cursor. */
  method Keep(a: array<byte>, ghost c: seq<byte>, input: nat, input': nat, output': nat, ghost before: seq<byte>)
    requires Unread(a, c, input') && Copied(a, before, c, input, input')
    requires output' == |before| + (input' - input) && output' <= input' < |c|
    modifies a
    ensures Unread(a, c, input' + 1) && Copied(a, before, c, input, input' + 1)
  {
    hide NulFree;
    a[output'] := a[input'];
  }

  lemma {:induction false} UnreadAt(a: array<byte>, c: seq<byte>, i: nat)
    requires Unread(a, c, i)
    ensures |c| < a.Length && i <= |c| && a[|c|] == NUL
    ensures i < |c| ==> a[i] == c[i] && a[i] != NUL
    ensures i + 1 < |c| ==> a[i + 1] == c[i + 1]
  {
  }

  /** Copy a string, quotes included; both cursors move by its length. */
  method MinifyString(a: array<byte>, ghost c: seq<byte>, input: nat, output: nat, ghost before: seq<byte>)
    returns (input': nat, output': nat)
    requires Unread(a, c, input) && output <= input < |c| && c[input] == QUOTE
    requires output == |before| && Copied(a, before, c, input, input)
    modifies a
    ensures input' == SpanEnd(c, input + 1) && output' == output + (input' - input)
    ensures Unread(a, c, input') && Copied(a, before, c, input, input')
  {
    hide SpanEnd, NulFree, Unread, Copied;
    UnreadAt(a, c, input);
    Keep(a, c, input, input, output, before);
    input', output' := input + 1, output + 1;
    UnreadAt(a, c, input');
    while a[input'] != NUL
      invariant input < input' <= |c| < a.Length && output' == output + (input' - input)
      invariant SpanEnd(c, input') == SpanEnd(c, input + 1)
      invariant Unread(a, c, input') && Copied(a, before, c, input, input')
      decreases |c| - input'
    {
      UnreadAt(a, c, input');
      SpanStep(c, input');
      var b := a[input'];
      Keep(a, c, input, input', output', before);
      input', output' := input' + 1, output' + 1;
      UnreadAt(a, c, input');
      if b == QUOTE {
        return;
      } else if b == BACKSLASH && a[input'] == QUOTE {
        Keep(a, c, input, input', output', before);
        input', output' := input' + 1, output' + 1;
      }
      UnreadAt(a, c, input');
    }
    UnreadAt(a, c, input');
    SpanStep(c, input);
  }

  lemma {:induction false} UnreadEnd(a: array<byte>, c: seq<byte>, i: nat)
    requires Unread(a, c, i)
    ensures a[i] == NUL ==> i == |c|
  {
  }

  lemma {:induction false} MinifiedStep(c: seq<byte>, i: nat, done: seq<byte>)
    requires i < |c|
    ensures done + Minified(c, i)
            == if IsBlank(c[i]) then done + Minified(c, i + 1)
               else if c[i] == SLASH then
                 if i + 1 < |c| && c[i + 1] == SLASH then done + Minified(c, LineEnd(c, i + 2))
                 else if i + 1 < |c| && c[i + 1] == STAR then done + Minified(c, CommentEnd(c, i + 2))
                 else done + Minified(c, i + 1)
               else if c[i] == QUOTE then
                 (done + c[i..SpanEnd(c, i + 1)]) + Minified(c, SpanEnd(c, i + 1))
               else (done + [c[i]]) + Minified(c, i + 1)
  {
    if c[i] == QUOTE {
      var e := SpanEnd(c, i + 1);
      assert done + (c[i..e] + Minified(c, e)) == (done + c[i..e]) + Minified(c, e);
    } else {
      assert done + ([c[i]] + Minified(c, i + 1)) == (done + [c[i]]) + Minified(c, i + 1);
    }
  }

  /** Minify the C string in `json`, in place; the write cursor never passes the read cursor. */
  method Minify(json: array?<byte>, ghost c: seq<byte>)
    requires json != null ==> Unread(json, c, 0)
    modifies if json == null then {} else {json}
    ensures json != null ==> var r := Minified(c, 0);
                             |r| <= |c| && json[..|r|] == r && json[|r|] == NUL
  {
    hide Minified, SpanEnd, LineEnd, CommentEnd, NulFree;
    if json == null {
      return;
    }
    var read: nat, into: nat := 0, 0;
    ghost var done: seq<byte> := [];
    assert [] + Minified(c, 0) == Minified(c, 0);
    while json[read] != NUL
      invariant into == |done| <= read <= |c| && Unread(json, c, read)
      invariant Copied(json, done, c, read, read)
      invariant Minified(c, 0) == done + Minified(c, read)
      decreases |c| - read
    {
      MinifiedStep(c, read, done);
      var b := json[read];
      if b == SPACE || b == TAB || b == 13 || b == NEWLINE {
        read := read + 1;
      } else if b == SLASH {
        if json[read + 1] == SLASH {
          read := SkipOnelineComment(json, c, read);
        } else if json[read + 1] == STAR {
          read := SkipMultilineComment(json, c, read);
        } else {
          read := read + 1;
        }
      } else if b == QUOTE {
        ghost var start := read;
        read, into := MinifyString(json, c, read, into, done);
        CopiedText(json, done, c, start, read);
        done := done + c[start..read];
      } else {
        json[into] := b;
        read, into := read + 1, into + 1;
        done := done + [b];
      }
    }
    UnreadEnd(json, c, read);
    assert Minified(c, |c|) == [] by { NothingLeft(c); }
    json[into] := NUL;
    CopiedText(json, done, c, read, read);
    assert done + [] == done;
  }

  lemma {:induction false} NothingLeft(c: seq<byte>)
    ensures Minified(c, |c|) == []
  {
  }
}
