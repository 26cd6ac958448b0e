/** Bytes, C strings and slices: the vocabulary the JSON modules share. */
module Bytes {

  type byte = b: int | 0 <= b < 256

  datatype Option<+T> = None | Some(value: T)

  /** The range of a C `int`. */
  const INT_MAX: int := 0x7fff_ffff
  const INT_MIN: int := -0x8000_0000

  const NUL: byte := 0
  const QUOTE: byte := 34
  const BACKSLASH: byte := 92
  const SLASH: byte := 47
  const COMMA: byte := 44
  const COLON: byte := 58
  const LBRACKET: byte := 91
  const RBRACKET: byte := 93
  const LBRACE: byte := 123
  const RBRACE: byte := 125
  const MINUS: byte := 45
  const TAB: byte := 9
  const NEWLINE: byte := 10
  const SPACE: byte := 32

  /** The bytes of an ASCII text. */
  function Ascii(s: string): (r: seq<byte>)
    ensures |r| == |s|
  {
    seq(|s|, i requires 0 <= i < |s| => if s[i] as int < 256 then s[i] as int else 0)
  }

  /** White space of JSON texts, section 2 of RFC 8259. */
  predicate IsBlank(b: byte) {
    b == SPACE || b == TAB || b == 13 || b == NEWLINE
  }

  predicate Blank(s: seq<byte>) {
    forall i :: 0 <= i < |s| ==> IsBlank(s[i])
  }

  predicate White(s: seq<byte>) {
    forall i :: 0 <= i < |s| ==> s[i] <= 32
  }

  /** A buffer that a C string function may walk: its last byte is a terminator. */
  ghost predicate Terminated(c: seq<byte>) {
    |c| > 0 && c[|c| - 1] == NUL
  }

  predicate NulFree(s: seq<byte>) {
    forall i :: 0 <= i < |s| ==> s[i] != NUL
  }

  /** What a reader of the C string `s` sees: the bytes before the first terminator. */
  function CString(s: seq<byte>): (r: seq<byte>)
    ensures NulFree(r)
    ensures r <= s
    ensures |r| < |s| ==> s[|r|] == NUL
  {
    if s == [] || s[0] == NUL then [] else [s[0]] + CString(s[1..])
  }

  lemma {:induction false} CStringOfNulFree(s: seq<byte>)
    requires NulFree(s)
    ensures CString(s) == s
  {
    if s != [] {
      CStringOfNulFree(s[1..]);
    }
  }

  /** `s` occurs in `c` at offset `o`. */
  predicate HasAt(c: seq<byte>, o: nat, s: seq<byte>) {
    o + |s| <= |c| && c[o..o + |s|] == s
  }

  lemma HasAtSplit(c: seq<byte>, o: nat, a: seq<byte>, b: seq<byte>)
    ensures HasAt(c, o, a + b) <==> HasAt(c, o, a) && HasAt(c, o + |a|, b)
  {
    if HasAt(c, o, a + b) {
      var ab := c[o..o + |a + b|];
      assert c[o..o + |a|] == ab[..|a|];
      assert c[o + |a|..o + |a| + |b|] == ab[|a|..];
    }
    if HasAt(c, o, a) && HasAt(c, o + |a|, b) {
      assert c[o..o + |a + b|] == c[o..o + |a|] + c[o + |a|..o + |a| + |b|];
    }
  }

  lemma HasAtIndex(c: seq<byte>, o: nat, s: seq<byte>, i: nat)
    requires HasAt(c, o, s) && i < |s|
    ensures c[o + i] == s[i]
  {
    assert c[o..o + |s|][i] == c[o + i];
  }

  lemma HasAtBound(c: seq<byte>, o: nat, s: seq<byte>)
    requires HasAt(c, o, s)
    ensures o + |s| <= |c|
  {
  }

  lemma HasAtEmpty(c: seq<byte>, o: nat)
    requires o <= |c|
    ensures HasAt(c, o, [])
  {
  }

  /** Four consecutive pieces of a text. */
  lemma HasAtFour(c: seq<byte>, o: nat, x: seq<byte>, y: seq<byte>, z: seq<byte>, w: seq<byte>)
    requires HasAt(c, o, x + y + z + w)
    ensures HasAt(c, o, x) && HasAt(c, o + |x|, y)
    ensures HasAt(c, o + |x| + |y|, z) && HasAt(c, o + |x| + |y| + |z|, w)
  {
    HasAtSplit(c, o, x + y + z, w);
    HasAtSplit(c, o, x + y, z);
    HasAtSplit(c, o, x, y);
  }

  lemma SliceConcat(c: seq<byte>, i: nat, j: nat, k: nat)
    requires i <= j <= k <= |c|
    ensures c[i..j] + c[j..k] == c[i..k]
  {
  }

  // ---------- pieces ----------

  /** The pieces end to end. */
  function Concat<T>(pieces: seq<seq<T>>): seq<T> {
    if pieces == [] then [] else pieces[0] + Concat(pieces[1..])
  }

  lemma {:induction false} ConcatSnoc<T>(pieces: seq<seq<T>>, x: seq<T>)
    ensures Concat(pieces + [x]) == Concat(pieces) + x
    decreases |pieces|
  {
    if pieces == [] {
      assert Concat([x]) == x + Concat([x][1..]);
    } else {
      assert (pieces + [x])[1..] == pieces[1..] + [x];
      ConcatSnoc(pieces[1..], x);
    }
  }
}
