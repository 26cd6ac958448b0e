/**
 Which strings the parser reads as a strict decoder would. A strict decoder works in one pass
 over section 7 of RFC 8259: it rejects a `\u` without four hex digits, which the parser takes
 for zero, and a raw control character, which the parser copies.
 */
module JsonStrict {
  import opened Bytes
  import opened JsonSyntax

  // ---------- a strict decoder ----------

  predicate FourDigits(c: seq<byte>, p: nat) {
    p + 4 <= |c| && forall i :: p <= i < p + 4 ==> HexValue(c[i]).Some?
  }

  /** The character of a `\u` escape, or of a surrogate pair of them, and the offset behind it. */
  function StrictUnit(c: seq<byte>, p: nat): (r: Option<(nat, nat)>)
    requires p + 2 <= |c|
    ensures r.Some? ==> r.value.0 < 0x110000 && p < r.value.1 <= |c|
  {
    if !FourDigits(c, p + 2) then None
    else
      var first := Hex4(c, p + 2);
      if LowSurrogate(first) then None
      else if !HighSurrogate(first) then Some((first, p + 6))
      else if p + 8 <= |c| && c[p + 6] == BACKSLASH && c[p + 7] == 117 && FourDigits(c, p + 8) then
        var second := Hex4(c, p + 8);
        if LowSurrogate(second) then Some((0x10000 + (first - 0xD800) * 0x400 + (second - 0xDC00), p + 12)) else None
      else None
  }

  /** The text from `p` up to the closing quote, and the offset of that quote. */
  function StrictText(c: seq<byte>, p: nat): (r: Option<(seq<byte>, nat)>)
    requires p <= |c|
    decreases |c| - p
  {
    if p == |c| then None
    else if c[p] == QUOTE then Some(([], p))
    else if c[p] < 32 then None
    else if c[p] != BACKSLASH then Then([c[p]], StrictText(c, p + 1))
    else if p + 1 == |c| then None
    else if c[p + 1] == 117 then
      match StrictUnit(c, p)
      case None => None
      case Some((cp, next)) => Then(EncodeUtf8(cp), StrictText(c, next))
    else
      match SimpleEscape(c[p + 1])
      case None => None
      case Some(b) => Then([b], StrictText(c, p + 2))
  }

  function Then(bytes: seq<byte>, r: Option<(seq<byte>, nat)>): Option<(seq<byte>, nat)> {
    match r
    case None => None
    case Some((rest, end)) => Some((bytes + rest, end))
  }

  // ---------- the condition ----------

  /** Every `\u` in `[p, e)`, read byte pair by byte pair, has its four hex digits before `e`. */
  predicate HexEscapes(c: seq<byte>, p: nat, e: nat)
    requires e < |c|
    decreases |c| - p
  {
    p >= e ||
    (if c[p] == BACKSLASH then (c[p + 1] == 117 ==> p + 6 <= e && FourDigits(c, p + 2)) && HexEscapes(c, p + 2, e)
     else HexEscapes(c, p + 1, e))
  }

  /** No raw control character stands in `[p, e)`. */
  predicate NoControls(c: seq<byte>, p: nat, e: nat)
    requires e <= |c|
  {
    forall i :: p <= i < e ==> c[i] >= 32
  }

  /** What a strict decoder demands of the bytes up to the closing quote. */
  predicate WellEscaped(c: seq<byte>, p: nat, e: nat)
    requires e < |c|
  {
    HexEscapes(c, p, e) && NoControls(c, p, e)
  }

  /** A digit is a step of one byte for both passes. */
  lemma DigitStep(c: seq<byte>, p: nat, e: nat)
    requires p < e < |c| && HexValue(c[p]).Some?
    ensures StringEnd(c, p) == StringEnd(c, p + 1) && HexEscapes(c, p, e) == HexEscapes(c, p + 1, e)
  {
  }

  lemma {:induction false} FourSteps(c: seq<byte>, p: nat, e: nat)
    requires p + 4 <= e < |c| && FourDigits(c, p)
    ensures StringEnd(c, p) == StringEnd(c, p + 4) && HexEscapes(c, p, e) == HexEscapes(c, p + 4, e)
  {
    hide StringEnd, HexEscapes;
    DigitStep(c, p, e);
    DigitStep(c, p + 1, e);
    DigitStep(c, p + 2, e);
    DigitStep(c, p + 3, e);
  }

  /** Digits before the closing quote lie before it. */
  lemma {:induction false} DigitsBeforeEnd(c: seq<byte>, p: nat, n: nat, e: nat)
    requires p + n <= |c| && (forall i :: p <= i < p + n ==> HexValue(c[i]).Some?) && StringEnd(c, p) == Some(e)
    ensures p + n <= e
    decreases n
  {
    if n > 0 {
      DigitsBeforeEnd(c, p + 1, n - 1, e);
    }
  }

  // ---------- exactly when the two agree ----------

  /** Behind a `\u` with its digits, the two passes, the strict decoder and the condition go on alike. */
  lemma {:induction false} UnitAgrees(c: seq<byte>, p: nat, e: nat)
    requires p + 1 < e < |c| && c[p] == BACKSLASH && c[p + 1] == 117 && StringEnd(c, p) == Some(e)
    ensures HexEscapes(c, p, e) ==>
              match StrictUnit(c, p)
              case None => PieceAt(c, p, e) == Bad
              case Some((cp, next)) => PieceAt(c, p, e) == Piece(next - p, EncodeUtf8(cp)) && next <= e
                                       && HexEscapes(c, next, e) && StringEnd(c, next) == Some(e)
    ensures !HexEscapes(c, p, e) && StrictUnit(c, p).Some? ==>
              var next := StrictUnit(c, p).value.1;
              next <= e && StringEnd(c, next) == Some(e) && !HexEscapes(c, next, e)
  {
    hide EncodeUtf8, Hex4;
    assert StringEnd(c, p + 2) == Some(e);
    if FourDigits(c, p + 2) {
      DigitsBeforeEnd(c, p + 2, 4, e);
      FourSteps(c, p + 2, e);
      var first := Hex4(c, p + 2);
      if HighSurrogate(first) && p + 8 <= |c| && c[p + 6] == BACKSLASH && c[p + 7] == 117 {
        assert StringEnd(c, p + 8) == Some(e);
        if FourDigits(c, p + 8) {
          DigitsBeforeEnd(c, p + 8, 4, e);
          FourSteps(c, p + 8, e);
          if LowSurrogate(Hex4(c, p + 8)) { SurrogatePair(first, Hex4(c, p + 8)); }
        }
      }
    }
  }

  lemma SurrogatePair(first: nat, second: nat)
    requires HighSurrogate(first) && LowSurrogate(second)
    ensures first % 0x400 == first - 0xD800 && second % 0x400 == second - 0xDC00
  {
  }

  /** A `\u` with its digits holds no control character. */
  lemma UnitIsPlain(c: seq<byte>, p: nat)
    requires p + 2 <= |c| && c[p] == BACKSLASH && c[p + 1] == 117 && StrictUnit(c, p).Some?
    ensures NoControls(c, p, StrictUnit(c, p).value.1)
  {
    hide Hex4;
  }

  /**
   From any offset where the first pass may stand: the strict decoder succeeds exactly when
   every `\u` has its digits, no control character stands before the quote, and the second pass
   succeeds, with the same bytes and end.
   */
  lemma {:induction false} StrictOrLenient(c: seq<byte>, p: nat, e: nat)
    requires p <= |c| && StringEnd(c, p) == Some(e)
    ensures var r := Unescape(c, p, e);
            StrictText(c, p) == if WellEscaped(c, p, e) && r.Ok? then Some((r.value, e)) else None
    ensures HexEscapes(c, p, e) && Unescape(c, p, e).Ok? ==> Unescape(c, p, e).next == e
    decreases |c| - p
  {
    hide StrictUnit, EncodeUtf8, Utf16At;
    if p < e {
      if c[p] != BACKSLASH {
        StrictOrLenient(c, p + 1, e);
      } else if c[p + 1] != 117 {
        StrictOrLenient(c, p + 2, e);
      } else {
        UnitAgrees(c, p, e);
        if StrictUnit(c, p).Some? {
          UnitIsPlain(c, p);
          StrictOrLenient(c, StrictUnit(c, p).value.1, e);
        }
      }
    }
  }

  /** Where the strict decoder succeeds, the first pass finds the same closing quote. */
  lemma {:induction false} StrictHasEnd(c: seq<byte>, p: nat)
    requires p <= |c| && StrictText(c, p).Some?
    ensures StringEnd(c, p) == Some(StrictText(c, p).value.1)
    decreases |c| - p
  {
    hide StrictUnit, EncodeUtf8;
    if p < |c| && c[p] != QUOTE {
      if c[p] != BACKSLASH {
        StrictHasEnd(c, p + 1);
      } else if c[p + 1] != 117 {
        StrictHasEnd(c, p + 2);
      } else {
        StrictHasEnd(c, StrictUnit(c, p).value.1);
        UnitHasEnd(c, p);
      }
    }
  }

  lemma {:induction false} UnitHasEnd(c: seq<byte>, p: nat)
    requires p + 2 <= |c| && c[p] == BACKSLASH && c[p + 1] == 117 && StrictUnit(c, p).Some?
    ensures StringEnd(c, p) == StringEnd(c, StrictUnit(c, p).value.1)
  {
    hide Hex4;
    FourPlain(c, p + 2);
    if HighSurrogate(Hex4(c, p + 2)) {
      FourPlain(c, p + 8);
    }
  }

  lemma {:induction false} FourPlain(c: seq<byte>, p: nat)
    requires FourDigits(c, p)
    ensures StringEnd(c, p) == StringEnd(c, p + 4)
  {
    assert StringEnd(c, p) == StringEnd(c, p + 1);
    assert StringEnd(c, p + 1) == StringEnd(c, p + 2);
    assert StringEnd(c, p + 2) == StringEnd(c, p + 3);
  }

  /**
   For every string in every buffer: the strict decoder accepts it exactly when the parser does,
   every `\u` has its four hex digits before the closing quote, and no raw control character
   stands before it. Both then give the same text, up to the first NUL in it, and end at the
   same quote.
   */
  lemma {:induction false} StrictExactly(c: seq<byte>, o: nat)
    requires o < |c| && c[o] == QUOTE
    ensures var strict := StrictText(c, o + 1);
            var end := StringEnd(c, o + 1);
            && (strict.Some? <==> ParseString(c, o).Ok? && WellEscaped(c, o + 1, end.value))
            && (strict.Some? ==> ParseString(c, o) == Ok(CString(strict.value.0), strict.value.1 + 1))
  {
    hide StrictText, StringEnd, WellEscaped, Unescape, CString;
    if StringEnd(c, o + 1).Some? {
      StrictOrLenient(c, o + 1, StringEnd(c, o + 1).value);
    } else if StrictText(c, o + 1).Some? {
      StrictHasEnd(c, o + 1);
    }
  }

  /**
   So among the strings the parser accepts, those that are malformed (how the raw bytes are
   encoded aside) are exactly the ones with a `\u` short of digits or a raw control character.
   */
  lemma {:induction false} AcceptedIsStrict(c: seq<byte>, o: nat)
    requires o < |c| && ParseString(c, o).Ok?
    ensures StrictText(c, o + 1).Some? <==> WellEscaped(c, o + 1, ParseString(c, o).next - 1)
  {
    hide StrictText, StringEnd, WellEscaped, Unescape, CString;
    StrictExactly(c, o);
  }

  /** An instance: the parser takes a raw line feed, though every `\u` has its digits. */
  lemma {:induction false} ControlIsAccepted()
    ensures var c := [QUOTE, 10, QUOTE, NUL];
            ParseString(c, 0) == Ok([10], 3) && HexEscapes(c, 1, 2) && StrictText(c, 1) == None
  {
    var c := [QUOTE, 10, QUOTE, NUL];
    assert StringEnd(c, 2) == Some(2);
    assert Unescape(c, 2, 2) == Ok([], 2);
    var feed: seq<byte> := [10];
    assert PieceAt(c, 1, 2) == Piece(1, feed) && feed + [] == feed;
    assert Unescape(c, 1, 2) == Ok(feed, 2);
    assert CString(feed) == feed;
  }

  // ---------- exactly when the two passes end apart ----------

  predicate AllBackslashes(c: seq<byte>, p: nat, e: nat)
    requires e <= |c|
  {
    forall i :: p <= i < e ==> c[i] == BACKSLASH
  }

  /**
   A `\u` of `n` bytes at `p` ends inside the run of backslashes in front of the closing quote,
   an odd number of them before it.
   */
  predicate StepSplits(c: seq<byte>, p: nat, n: nat, e: nat)
    requires p < e < |c|
  {
    c[p] == BACKSLASH && c[p + 1] == 117 && p + n <= e && AllBackslashes(c, p + n, e) && (e - (p + n)) % 2 == 1
  }

  /** Some `\u` that the second pass reads splits the run. */
  predicate SplitsRun(c: seq<byte>, p: nat, e: nat)
    requires p <= e + 1 && e < |c|
    decreases e + 1 - p
  {
    p < e &&
    match PieceAt(c, p, e)
    case Bad => false
    case Piece(n, _) =>
      StepSplits(c, p, n, e) || SplitsRun(c, p + n, e)
  }

  /** The run of backslashes in front of the closing quote pairs up. */
  lemma {:induction false} RunIsEven(c: seq<byte>, p: nat, q: nat, e: nat)
    requires p <= q <= e < |c| && StringEnd(c, p) == Some(e) && AllBackslashes(c, q, e)
    requires q == p || c[q - 1] != BACKSLASH
    ensures (e - q) % 2 == 0
    decreases e - p
  {
    if p < q {
      RunIsEven(c, if c[p] == BACKSLASH then p + 2 else p + 1, q, e);
    } else if q + 1 < e {
      RunIsEven(c, p + 2, q + 2, e);
    }
  }

  /** Through backslashes alone the second pass goes in pairs. */
  lemma {:induction false} PairsEnd(c: seq<byte>, p: nat, e: nat)
    requires p <= e < |c| && c[e] == QUOTE && AllBackslashes(c, p, e)
    ensures Unescape(c, p, e).Ok? && Unescape(c, p, e).next == e + (e - p) % 2 && !SplitsRun(c, p, e)
    decreases e - p
  {
    if p + 1 < e {
      PairsEnd(c, p + 2, e);
    }
  }

  lemma OneStep(c: seq<byte>, p: nat, e: nat)
    requires p < e < |c| && Unescape(c, p, e).Ok?
    ensures PieceAt(c, p, e).Piece?
    ensures var n := PieceAt(c, p, e).length;
            && 0 < n && p + n <= e + 1
            && Unescape(c, p + n, e).Ok? && Unescape(c, p, e).next == Unescape(c, p + n, e).next
            && (SplitsRun(c, p, e) <==> StepSplits(c, p, n, e) || SplitsRun(c, p + n, e))
            && (c[p] != BACKSLASH ==> n == 1) && (c[p] == BACKSLASH && c[p + 1] != 117 ==> n == 2)
  {
    hide Utf16At, AllBackslashes;
  }

  lemma {:induction false} EndsApartFrom(c: seq<byte>, start: nat, p: nat, e: nat)
    requires start <= p <= e < |c| && StringEnd(c, start) == Some(e) && Unescape(c, p, e).Ok?
    requires AllBackslashes(c, p, e) ==> (e - p) % 2 == 0
    ensures Unescape(c, p, e).next == if SplitsRun(c, p, e) then e + 1 else e
    decreases e - p
  {
    hide StringEnd, PieceAt, Unescape, SplitsRun, StepSplits, AllBackslashes;
    EndIsQuote(c, start);
    if AllBackslashes(c, p, e) {
      PairsEnd(c, p, e);
    } else {
      SomeByte(c, p, e);
      OneStep(c, p, e);
      var n := PieceAt(c, p, e).length;
      if p + n <= e && AllBackslashes(c, p + n, e) {
        PairsEnd(c, p + n, e);
        IntoTheRun(c, start, p, n, e);
      } else if p + n <= e {
        NoSplit(c, p, n, e);
        EndsApartFrom(c, start, p + n, e);
      } else {
        PastTheEnd(c, p, e, n);
      }
    }
  }

  lemma SomeByte(c: seq<byte>, p: nat, e: nat)
    requires p <= e <= |c| && !AllBackslashes(c, p, e)
    ensures p < e
  {
  }

  lemma NoSplit(c: seq<byte>, p: nat, n: nat, e: nat)
    requires p < e < |c| && p + n <= e && !AllBackslashes(c, p + n, e)
    ensures !StepSplits(c, p, n, e)
  {
  }

  /** Only an escape of two bytes can end behind the quote, and then only backslashes were left. */
  lemma PastTheEnd(c: seq<byte>, p: nat, e: nat, n: nat)
    requires p < e < |c| && PieceAt(c, p, e).Piece? && n == PieceAt(c, p, e).length && p + n > e
    ensures AllBackslashes(c, p, e)
  {
    hide Utf16At;
  }

  lemma {:induction false} IntoTheRun(c: seq<byte>, start: nat, p: nat, n: nat, e: nat)
    requires start <= p < p + n <= e < |c| && StringEnd(c, start) == Some(e)
    requires (c[p] != BACKSLASH ==> n == 1) && (c[p] == BACKSLASH && c[p + 1] != 117 ==> n == 2)
    requires AllBackslashes(c, p + n, e) && !AllBackslashes(c, p, e)
    ensures (e - (p + n)) % 2 == if StepSplits(c, p, n, e) then 1 else 0
  {
    hide StringEnd;
    if c[p] != BACKSLASH || c[p + 1] != 117 {
      assert c[p + n - 1] != BACKSLASH;
      RunIsEven(c, start, p + n, e);
    }
  }

  lemma EndIsQuote(c: seq<byte>, p: nat)
    requires p <= |c| && StringEnd(c, p).Some?
    ensures c[StringEnd(c, p).value] == QUOTE
  {
  }

  /**
   For every string the parser accepts: the second pass stops at the closing quote of the
   first exactly when no `\u` splits the run of backslashes in front of it; otherwise it
   stops one byte later. A `\u` with its digits never does that.
   */
  lemma {:induction false} PassesEndTogether(c: seq<byte>, o: nat)
    requires o < |c| && ParseString(c, o).Ok?
    ensures var e := ParseString(c, o).next - 1;
            && Unescape(c, o + 1, e).next == (if SplitsRun(c, o + 1, e) then e + 1 else e)
            && (HexEscapes(c, o + 1, e) ==> !SplitsRun(c, o + 1, e))
  {
    hide StringEnd, Unescape, SplitsRun, HexEscapes, CString;
    var e := StringEnd(c, o + 1).value;
    if AllBackslashes(c, o + 1, e) {
      RunIsEven(c, o + 1, o + 1, e);
    }
    EndsApartFrom(c, o + 1, o + 1, e);
    StrictOrLenient(c, o + 1, e);
  }

  /**
   An instance: the parser accepts `"\u123\\"` although it is malformed, and its second pass
   takes the first of the two backslashes for a hex digit, reads the closing quote as an
   escaped one, and stops one byte past it.
   */
  lemma {:induction false} MalformedIsAccepted()
    ensures var c := [QUOTE, BACKSLASH, 117, 49, 50, 51, BACKSLASH, BACKSLASH, QUOTE, NUL];
            && ParseString(c, 0) == Ok([], 9) && StrictText(c, 1) == None
            && Unescape(c, 1, 8) == Ok([NUL, QUOTE], 9)
  {
    var c := [QUOTE, BACKSLASH, 117, 49, 50, 51, BACKSLASH, BACKSLASH, QUOTE, NUL];
    assert StringEnd(c, 8) == Some(8);
    assert StringEnd(c, 6) == Some(8);
    assert StringEnd(c, 5) == Some(8);
    assert StringEnd(c, 4) == Some(8);
    assert StringEnd(c, 3) == Some(8);
    assert PieceAt(c, 1, 8) == Piece(6, [NUL]);
    assert PieceAt(c, 7, 8) == Piece(2, [QUOTE]);
    assert Unescape(c, 9, 8) == Ok([], 9);
    var q: seq<byte> := [QUOTE];
    assert q + [] == q;
    assert Unescape(c, 7, 8) == Ok(q, 9);
    assert Unescape(c, 1, 8) == Ok([NUL] + q, 9);
    assert [NUL] + q == [NUL, QUOTE];
    assert !FourDigits(c, 3) by { assert HexValue(c[6]) == None; }
    assert StringEnd(c, 1) == Some(8);
    assert CString([NUL, QUOTE]) == [];
  }
}
