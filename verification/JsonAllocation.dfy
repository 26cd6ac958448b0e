/**
 The buffer that the string parser allocates from its first pass is large enough
 for everything its second pass writes, although a malformed `\u` escape can make
 the two passes disagree about where escapes start.
 */
module JsonAllocation {
  import opened Bytes
  import opened JsonSyntax

  /**
   Escapes that the first pass meets in `[p, e)`. `inside` says that `p` is the
   second byte of an escape, which the first pass steps over unread.
   */
  function Escapes(c: seq<byte>, p: nat, e: nat, inside: bool): (n: nat)
    requires e <= |c|
    ensures p <= e ==> n <= e - p
    decreases e - p
  {
    if p >= e then 0
    else if inside then Escapes(c, p + 1, e, false)
    else if c[p] == BACKSLASH then 1 + Escapes(c, p + 1, e, true)
    else Escapes(c, p + 1, e, false)
  }

  /** Bytes to allocate for the string that opens at `o` and closes at `e`, terminator included. */
  function Allocation(c: seq<byte>, o: nat, e: nat): (n: nat)
    requires o < e < |c|
    ensures n >= 2
  {
    e - o - Escapes(c, o + 1, e, false) + 1
  }

  lemma TwoBytesOneEscape(c: seq<byte>, p: nat, e: nat, inside: bool) returns (after: bool)
    requires p < e <= |c|
    ensures Escapes(c, p, e, inside) <= 1 + Escapes(c, p + 2, e, after)
  {
    after := if inside then p + 1 < e && c[p + 1] == BACKSLASH else p + 1 < e && c[p] != BACKSLASH && c[p + 1] == BACKSLASH;
  }

  /** Whatever the first pass made of the bytes a step reads, the step writes no more than it saved. */
  lemma PieceFits(c: seq<byte>, p: nat, e: nat, inside: bool) returns (after: bool)
    requires p < e < |c|
    ensures var r := PieceAt(c, p, e);
            r.Piece? ==> |r.bytes| + Escapes(c, p, e, inside) <= r.length + Escapes(c, p + r.length, e, after)
  {
    var r := PieceAt(c, p, e);
    after := false;
    if c[p] == BACKSLASH && r.Piece? {
      after := TwoBytesOneEscape(c, p, e, inside);
      if r.length >= 6 {
        after := TwoBytesOneEscape(c, p + 2, e, after);
        after := TwoBytesOneEscape(c, p + 4, e, after);
        if r.length == 12 {
          after := TwoBytesOneEscape(c, p + 6, e, after);
          after := TwoBytesOneEscape(c, p + 8, e, after);
          after := TwoBytesOneEscape(c, p + 10, e, after);
        }
      }
    }
  }

  lemma {:induction false} SecondPassFits(c: seq<byte>, p: nat, e: nat, inside: bool)
    requires p <= e + 1 && e < |c|
    ensures var r := Unescape(c, p, e); r.Ok? ==> |r.value| + Escapes(c, p, e, inside) <= e + 1 - p
    decreases e + 1 - p
  {
    if p < e {
      var r := PieceAt(c, p, e);
      if r.Piece? {
        var after := PieceFits(c, p, e, inside);
        SecondPassFits(c, p + r.length, e, after);
      }
    }
  }

  /** For every input, well formed or not, the bytes written and their terminator fit the allocation. */
  lemma AllocationSuffices(c: seq<byte>, o: nat)
    requires o < |c|
    ensures StringEnd(c, o + 1).Some? ==>
              var e := StringEnd(c, o + 1).value;
              var r := Unescape(c, o + 1, e);
              r.Ok? ==> |r.value| + 1 <= Allocation(c, o, e)
  {
    if StringEnd(c, o + 1).Some? {
      SecondPassFits(c, o + 1, StringEnd(c, o + 1).value, false);
    }
  }
}
