/**
 Completeness: the parser accepts every text of the loose grammar that it supports, with the
 value the text denotes, and no other text of it. The texts of RFC 8259 are among them.
 */
module JsonComplete {
  import opened Bytes
  import opened JsonValue
  import opened JsonRender
  import opened JsonSyntax
  import opened JsonGrammar
  import R = JsonRoundTrip
  import opened JsonStrict

  // ---------- numbers ----------

  lemma PowStep(k: int)
    ensures Pow10(k + 1) == 10.0 * Pow10(k)
  {
    assert k < 0 ==> Pow10(k) == Pow10(k + 1) / 10.0;
  }

  lemma {:induction false} PlacesSnoc(ds: seq<byte>, d: byte, k: int)
    ensures Places(ds + [d], k) == Places(ds, k) + (d as int - 48) as real * Pow10(k - |ds|)
    decreases |ds|
  {
    hide Pow10;
    if ds == [] {
      assert ([] + [d])[1..] == [];
      assert Places([], k - 1) == 0.0;
    } else {
      assert (ds + [d])[1..] == ds[1..] + [d];
      PlacesSnoc(ds[1..], d, k - 1);
    }
  }

  lemma {:induction false} ValueIsLocal(s: seq<byte>, i: nat, j: nat, ds: seq<byte>)
    requires i <= j <= |s| && s[i..j] == ds
    ensures DigitsValue(s, i, j) == DigitsValue(ds, 0, |ds|)
    decreases j - i
  {
    if i < j {
      var init := ds[..|ds| - 1];
      assert s[i..j - 1] == init && ds[0..|ds| - 1] == init;
      ValueIsLocal(s, i, j - 1, init);
      ValueIsLocal(ds, 0, |ds| - 1, init);
      assert s[j - 1] == ds[|ds| - 1];
    }
  }

  lemma {:induction false} ValueSnoc(ds: seq<byte>, d: byte)
    ensures DigitsValue(ds + [d], 0, |ds| + 1) == 10 * DigitsValue(ds, 0, |ds|) + (d as int - 48)
  {
    assert (ds + [d])[0..|ds|] == ds;
    ValueIsLocal(ds + [d], 0, |ds|, ds);
  }

  /** The digits as one natural number, moved to their places. */
  lemma {:induction false} PlacesOfDigits(ds: seq<byte>, k: int)
    ensures Places(ds, k) == DigitsValue(ds, 0, |ds|) as real * Pow10(k + 1 - |ds|)
    decreases |ds|
  {
    hide Pow10, DigitsValue, Places;
    NothingHasNoValue();
    NothingHasNoPlaces(k);
    if ds != [] {
      var init, d := ds[..|ds| - 1], ds[|ds| - 1];
      assert ds == init + [d];
      PlacesOfDigits(init, k);
      PlacesSnoc(init, d, k);
      ValueSnoc(init, d);
      PowStep(k - |init|);
      Distribute(DigitsValue(init, 0, |init|), d as int - 48, Pow10(k - |init|));
    }
  }

  lemma NothingHasNoValue()
    ensures DigitsValue([], 0, 0) == 0
  {
  }

  lemma NothingHasNoPlaces(k: int)
    ensures Places([], k) == 0.0
  {
  }

  lemma Distribute(n: int, d: int, p: real)
    ensures n as real * (10.0 * p) + d as real * p == (10 * n + d) as real * p
  {
  }

  /** The whole part and the fraction as one natural number. */
  lemma {:induction false} Joined(a: seq<byte>, b: seq<byte>)
    ensures DigitsValue(a + b, 0, |a + b|) as real
            == DigitsValue(a, 0, |a|) as real * Pow10(|b|) + DigitsValue(b, 0, |b|) as real
    decreases |b|
  {
    hide DigitsValue, Pow10;
    NothingHasNoValue();
    R.PowZero();
    if b == [] {
      assert a + b == a;
    } else {
      var init, d := b[..|b| - 1], b[|b| - 1];
      assert b == init + [d] && a + b == (a + init) + [d];
      Joined(a, init);
      ValueSnoc(init, d);
      ValueSnoc(a + init, d);
      PowStep(|init|);
      Shifted(DigitsValue(a, 0, |a|), Pow10(|init|), DigitsValue(init, 0, |init|), d as int - 48,
              DigitsValue(a + init, 0, |a + init|));
    }
  }

  lemma Shifted(a: int, p: real, b: int, d: int, ab: int)
    requires ab as real == a as real * p + b as real
    ensures (10 * ab + d) as real == a as real * (10.0 * p) + (10 * b + d) as real
  {
  }

  /** Where digits stand, the scan takes exactly them. */
  lemma {:induction false} DigitsStand(s: seq<byte>, i: nat, ds: seq<byte>)
    requires HasAt(s, i, ds) && AllDigits(ds) && (i + |ds| < |s| ==> !IsDigit(s[i + |ds|]))
    ensures DigitsEnd(s, i) == i + |ds| && DigitsValue(s, i, i + |ds|) == DigitsValue(ds, 0, |ds|)
  {
    forall k | i <= k < i + |ds| ensures IsDigit(s[k]) {
      HasAtIndex(s, i, ds, k - i);
    }
    R.DigitsEndAt(s, i, i + |ds|);
    ValueIsLocal(s, i, i + |ds|, ds);
  }

  lemma {:induction false} ExponentStands(s: seq<byte>, i: nat, e: Exponent)
    requires IsExponent(e) && HasAt(s, i, ExponentText(e)) && i + |ExponentText(e)| == |s|
    ensures ExponentEnd(s, i) == |s| && ExponentValue(s, i, |s|) == ExponentOf(e)
  {
    hide DigitsEnd, DigitsValue, HasAt, AllDigits;
    match e
    case NoExponent =>
    case Exponent(mark, sign, digits) =>
      HasAtSplit(s, i, [mark] + sign, digits);
      HasAtSplit(s, i, [mark], sign);
      HasAtIndex(s, i, [mark], 0);
      var k := i + 1 + |sign|;
      HasAtIndex(s, k, digits, 0);
      WholeStart(digits);
      DigitsStand(s, k, digits);
      if sign != [] {
        HasAtIndex(s, i + 1, sign, 0);
        assert sign == [s[i + 1]];
      }
  }

  lemma WholeStart(digits: seq<byte>)
    requires AllDigits(digits) && digits != []
    ensures IsDigit(digits[0])
  {
  }

  /** A numeral starts with a minus sign or a digit, and has numeric bytes only. */
  lemma {:induction false} NumeralBytes(n: Numeral)
    requires IsNumeral(n, false)
    ensures NumeralText(n) != [] && (NumeralText(n)[0] == MINUS || IsDigit(NumeralText(n)[0]))
    ensures forall i :: 0 <= i < |NumeralText(n)| ==> IsNumeric(NumeralText(n)[i])
  {
    var a, b, f, e := MinusText(n.minus), n.whole, FractionText(n), ExponentText(n.exponent);
    assert AllNumeric(a) && AllNumeric(b) && AllNumeric(f);
    assert a + b + f != [] && (a + b + f)[0] == if n.minus then MINUS else n.whole[0];
    assert AllNumeric(e);
    NumericConcat(a, b);
    NumericConcat(a + b, f);
    NumericConcat(a + b + f, e);
  }

  predicate AllNumeric(s: seq<byte>) {
    forall i :: 0 <= i < |s| ==> IsNumeric(s[i])
  }

  lemma NumericConcat(a: seq<byte>, b: seq<byte>)
    requires AllNumeric(a) && AllNumeric(b)
    ensures AllNumeric(a + b)
  {
  }

  /** What `strtod` makes of a numeral: all of it, with the digits at their places. */
  lemma {:induction false} StrtodOfNumeral(n: Numeral)
    requires IsNumeral(n, false)
    ensures Strtod(NumeralText(n)) == Some((NumeralValue(n), |NumeralText(n)|))
  {
    hide Strtod, DigitsEnd, DigitsValue, Pow10, NumeralValue, ExponentEnd, ExponentValue, ExponentOf, HasAt, AllDigits,
         IsExponent, NumeralText;
    var s := NumeralText(n);
    var i0 := |MinusText(n.minus)|;
    var i1 := i0 + |n.whole|;
    var i2 := i1 + |FractionText(n)|;
    NumeralBytes(n);
    NumeralScan(n);
    NothingHasNoValue();
    StrtodParts(s, i0, i1, i2);
    PlacesOfNumeral(n, MantissaOf(s, i0, i1, i2), ExponentValue(s, i2, |s|) - if i1 == i2 then 0 else i2 - i1 - 1);
    assert Strtod(s).value.0 == NumeralValue(n);
  }

  function MantissaOf(s: seq<byte>, i0: nat, i1: nat, i2: nat): real
    requires i0 <= i1 <= i2 <= |s|
  {
    if i1 == i2 then DigitsValue(s, i0, i1) as real * Pow10(0)
    else DigitsValue(s, i0, i1) as real * Pow10(i2 - i1 - 1) + DigitsValue(s, i1 + 1, i2) as real
  }

  lemma StrtodParts(s: seq<byte>, i0: nat, i1: nat, i2: nat)
    requires i0 <= 1 && i0 <= i1 <= i2 <= |s| && s != [] && i0 == (if IsSign(s[0]) then 1 else 0)
    requires i0 < i1 || i1 + 1 < i2
    requires DigitsEnd(s, i0) == i1
    requires if i1 < |s| && s[i1] == POINT then i1 < i2 && DigitsEnd(s, i1 + 1) == i2 else i1 == i2
    ensures var end := ExponentEnd(s, i2);
            var m := MantissaOf(s, i0, i1, i2) * Pow10(ExponentValue(s, i2, end) - if i1 == i2 then 0 else i2 - i1 - 1);
            && Strtod(s).Some? && Strtod(s).value.1 == end
            && Strtod(s).value.0 == if i0 == 1 && s[0] == MINUS then -m else m
  {
    hide DigitsEnd, DigitsValue, Pow10, ExponentEnd, ExponentValue;
  }

  /** The value of a numeral from its digits as natural numbers. */
  lemma {:induction false} PlacesOfNumeral(n: Numeral, mantissa: real, e: int)
    requires mantissa == DigitsValue(n.whole, 0, |n.whole|) as real * Pow10(|n.fraction|)
                         + DigitsValue(n.fraction, 0, |n.fraction|) as real
    requires e == ExponentOf(n.exponent) - |n.fraction|
    ensures NumeralValue(n) == if n.minus then -(mantissa * Pow10(e)) else mantissa * Pow10(e)
  {
    hide DigitsValue, Pow10, Places, ExponentOf;
    Joined(n.whole, n.fraction);
    PlacesOfDigits(n.whole + n.fraction, |n.whole| - 1 + ExponentOf(n.exponent));
  }

  /** Where the scan of a numeral stops, part by part. */
  lemma {:induction false} NumeralScan(n: Numeral)
    requires IsNumeral(n, false)
    ensures var s := NumeralText(n);
            var i0 := |MinusText(n.minus)|;
            var i1 := i0 + |n.whole|;
            var i2 := i1 + |FractionText(n)|;
            && i2 <= |s| && (if n.minus then s[0] == MINUS else IsDigit(s[0]))
            && DigitsEnd(s, i0) == i1 && DigitsValue(s, i0, i1) == DigitsValue(n.whole, 0, |n.whole|)
            && FractionScan(s, i1, i2, n)
            && ExponentEnd(s, i2) == |s| && ExponentValue(s, i2, |s|) == ExponentOf(n.exponent)
  {
    hide DigitsEnd, DigitsValue, ExponentEnd, ExponentValue, ExponentOf, HasAt, AllDigits, FractionScan, IsExponent,
         NumeralText, FractionText, ExponentText;
    var s := NumeralText(n);
    var i1 := |MinusText(n.minus)| + |n.whole|;
    NumeralParts(n);
    NumeralStops(n);
    DigitsStand(s, |MinusText(n.minus)|, n.whole);
    FractionStands(s, i1, n);
    ExponentStands(s, i1 + |FractionText(n)|, n.exponent);
  }

  /** Where the parts of a numeral stand in its text. */
  lemma {:induction false} NumeralParts(n: Numeral)
    requires IsNumeral(n, false)
    ensures var s, a, f, e := NumeralText(n), MinusText(n.minus), FractionText(n), ExponentText(n.exponent);
            var i1 := |a| + |n.whole|;
            && HasAt(s, 0, a) && HasAt(s, |a|, n.whole) && HasAt(s, i1, f) && HasAt(s, i1 + |f|, e)
            && i1 + |f| + |e| == |s|
            && (if n.minus then s[0] == MINUS else IsDigit(s[0]))
  {
    hide HasAt, IsExponent, FractionText, ExponentText;
    var s := NumeralText(n);
    var a := MinusText(n.minus);
    WholeText(s);
    HasAtFour(s, 0, a, n.whole, FractionText(n), ExponentText(n.exponent));
    if n.minus { HasAtIndex(s, 0, a, 0); } else { HasAtIndex(s, 0, n.whole, 0); }
  }

  /** Each part of a numeral ends the one before. */
  lemma {:induction false} NumeralStops(n: Numeral)
    requires IsNumeral(n, false)
    ensures var s := NumeralText(n);
            var i1 := |MinusText(n.minus)| + |n.whole|;
            var i2 := i1 + |FractionText(n)|;
            && (i1 < |s| ==> !IsDigit(s[i1])) && (i2 < |s| ==> !IsDigit(s[i2]) && s[i2] != POINT)
  {
    hide HasAt, IsExponent, AllDigits, NumeralText, FractionText, ExponentText;
    var s, f, e := NumeralText(n), FractionText(n), ExponentText(n.exponent);
    var i1 := |MinusText(n.minus)| + |n.whole|;
    NumeralParts(n);
    FractionStart(n);
    ExponentStart(n.exponent);
    if f != [] { HasAtIndex(s, i1, f, 0); }
    if e != [] { HasAtIndex(s, i1 + |f|, e, 0); }
  }

  predicate FractionScan(s: seq<byte>, i1: nat, i2: nat, n: Numeral) {
    if !n.point then i2 == i1 && (i1 < |s| ==> s[i1] != POINT)
    else i1 + 1 + |n.fraction| == i2 <= |s| && s[i1] == POINT && DigitsEnd(s, i1 + 1) == i2
         && DigitsValue(s, i1 + 1, i2) == DigitsValue(n.fraction, 0, |n.fraction|)
  }

  lemma {:induction false} FractionStands(s: seq<byte>, i: nat, n: Numeral)
    requires AllDigits(n.fraction) && HasAt(s, i, FractionText(n))
    requires var e := i + |FractionText(n)|; e < |s| ==> !IsDigit(s[e]) && s[e] != POINT
    ensures FractionScan(s, i, i + |FractionText(n)|, n)
  {
    hide DigitsEnd, DigitsValue, HasAt, AllDigits;
    if n.point {
      HasAtBound(s, i, FractionText(n));
      HasAtSplit(s, i, [POINT], n.fraction);
      HasAtIndex(s, i, [POINT], 0);
      DigitsStand(s, i + 1, n.fraction);
    }
  }

  lemma FractionStart(n: Numeral)
    ensures var f := FractionText(n); if n.point then |f| > 0 && f[0] == POINT else f == []
  {
  }

  lemma WholeText(s: seq<byte>)
    ensures HasAt(s, 0, s)
  {
  }

  lemma ExponentStart(e: Exponent)
    requires IsExponent(e)
    ensures var t := ExponentText(e); t != [] ==> !IsDigit(t[0]) && t[0] != POINT
  {
  }

  /** A numeral that fits is read with its value; a longer one is left at one of its own bytes. */
  lemma {:induction false} ParseNumeral(n: Numeral, c: seq<byte>, o: nat)
    requires IsNumeral(n, false) && R.Stands(NumeralText(n), c, o)
    ensures var r := ParseNumber(c, o);
            if |NumeralText(n)| <= 63 then r == Ok(NumeralValue(n), o + |NumeralText(n)|)
            else r.Fail? || (r.next < |c| && IsNumeric(c[r.next]))
  {
    hide Strtod, NumeralText, NumeralValue, IsNumeral, NumericRun, IsNumeric;
    var s := NumeralText(n);
    NumeralBytes(n);
    forall i | o <= i < o + |s| ensures IsNumeric(c[i]) {
      HasAtIndex(c, o, s, i - o);
    }
    if |s| <= NUMBER_ROOM {
      R.NumericRunAt(c, o, |s|, NUMBER_ROOM);
      StrtodOfNumeral(n);
    }
  }

  // ---------- strings ----------

  lemma {:induction false} UnquotedConcat(a: seq<byte>, b: seq<byte>)
    requires Unquoted(a) && Unquoted(b)
    ensures Unquoted(a + b)
    decreases |a|
  {
    if a == [] {
      assert a + b == b;
    } else {
      var n := if a[0] == BACKSLASH then 2 else 1;
      assert (a + b)[n..] == a[n..] + b;
      UnquotedConcat(a[n..], b);
    }
  }

  lemma HexIsPlain(b: byte)
    requires HexValue(b).Some?
    ensures b != QUOTE && b != BACKSLASH
  {
  }

  lemma {:induction false} CharUnquoted(x: Char)
    requires IsChar(x, true)
    ensures Unquoted(CharText(x))
  {
    hide HexValue;
    match x
    case Raw(b) =>
    case Escaped(letter) => assert [BACKSLASH, letter][2..] == [];
    case CodeUnit(a, b, c, d) =>
      HexIsPlain(a);
      HexIsPlain(b);
      HexIsPlain(c);
      HexIsPlain(d);
      UnquotedCons(d, []);
      UnquotedCons(c, [d]);
      UnquotedCons(b, [c, d]);
      UnquotedCons(a, [b, c, d]);
      assert [a] + ([b] + ([c] + ([d] + []))) == [a, b, c, d];
      assert CharText(x)[2..] == [a, b, c, d];
  }

  lemma UnquotedCons(b: byte, s: seq<byte>)
    requires b != QUOTE && b != BACKSLASH && Unquoted(s)
    ensures Unquoted([b] + s)
  {
    assert ([b] + s)[1..] == s;
  }

  /** No quote stands outside an escape in the characters of RFC 8259. */
  lemma {:induction false} CharsUnquoted(xs: seq<Char>)
    requires AreChars(xs, true)
    ensures Unquoted(CharsText(xs))
    decreases |xs|
  {
    hide CharText, IsChar;
    if xs != [] {
      CharUnquoted(xs[0]);
      CharsUnquoted(xs[1..]);
      UnquotedConcat(CharText(xs[0]), CharsText(xs[1..]));
    }
  }

  /** The first pass goes over anything without a quote outside an escape, up to the closing quote. */
  lemma {:induction false} EndOfBody(s: seq<byte>, c: seq<byte>, p: nat, e: nat)
    requires Unquoted(s) && HasAt(c, p, s) && p + |s| == e < |c| && c[e] == QUOTE
    ensures StringEnd(c, p) == Some(e)
    decreases |s|
  {
    hide StringEnd, HasAt;
    if s == [] {
      QuoteEnds(c, p);
    } else {
      HasAtIndex(c, p, s, 0);
      var n := if s[0] == BACKSLASH then 2 else 1;
      assert s == s[..n] + s[n..];
      HasAtSplit(c, p, s[..n], s[n..]);
      EndOfBody(s[n..], c, p + n, e);
      if n == 2 { R.StringEndEscape(c, p); } else { R.StringEndPlain(c, p); }
    }
  }

  lemma QuoteEnds(c: seq<byte>, p: nat)
    requires p < |c| && c[p] == QUOTE
    ensures StringEnd(c, p) == Some(p)
  {
  }

  /** The characters stand at `p` and end at `e`, or one byte later when a last escape takes the quote. */
  ghost predicate CharsAt(xs: seq<Char>, c: seq<byte>, p: nat, e: nat, strict: bool) {
    && AreChars(xs, strict) && HasAt(c, p, CharsText(xs)) && e < |c| && c[e] == QUOTE
    && (p + |CharsText(xs)| == e || (!strict && p + |CharsText(xs)| == e + 1 && (xs == [] || EndsInQuote(xs))))
  }

  lemma {:induction false} CharsStep(xs: seq<Char>, c: seq<byte>, p: nat, e: nat, strict: bool)
    requires CharsAt(xs, c, p, e, strict) && xs != []
    ensures IsChar(xs[0], strict) && HasAt(c, p, CharText(xs[0])) && CharsAt(xs[1..], c, p + |CharText(xs[0])|, e, strict)
    ensures p + |CharsText(xs)| == p + |CharText(xs[0])| + |CharsText(xs[1..])|
    ensures p < e && (p + |CharText(xs[0])| <= e || (xs[0] == Escaped(QUOTE) && p + 2 == e + 1))
  {
    hide HasAt;
    HasAtSplit(c, p, CharText(xs[0]), CharsText(xs[1..]));
    if |xs| > 1 {
      assert xs[1..][|xs| - 2] == xs[|xs| - 1];
      TextNotEmpty(xs[1..]);
    }
  }

  lemma TextNotEmpty(xs: seq<Char>)
    requires xs != []
    ensures |CharsText(xs)| > 0
  {
  }

  lemma CharsBound(xs: seq<Char>, c: seq<byte>, p: nat, e: nat, strict: bool)
    requires CharsAt(xs, c, p, e, strict)
    ensures p <= e + 1 && e < |c| && (xs == [] ==> p >= e) && (strict && xs == [] ==> p == e)
  {
  }

  /** The bytes of one character. */
  lemma {:induction false} CharBytesAt(x: Char, c: seq<byte>, p: nat)
    requires IsChar(x, false) && HasAt(c, p, CharText(x))
    ensures p + |CharText(x)| <= |c|
    ensures match x
            case Raw(b) => c[p] == b
            case Escaped(letter) => c[p] == BACKSLASH && c[p + 1] == letter && letter != 117
            case CodeUnit(a1, a2, a3, a4) =>
              && c[p] == BACKSLASH && c[p + 1] == 117
              && c[p + 2] == a1 && c[p + 3] == a2 && c[p + 4] == a3 && c[p + 5] == a4
              && Hex4(c, p + 2) == UnitOf(x)
  {
    var s := CharText(x);
    HasAtIndex(c, p, s, 0);
    if |s| > 1 { HasAtIndex(c, p, s, 1); }
    if |s| > 2 {
      HasAtIndex(c, p, s, 2);
      HasAtIndex(c, p, s, 3);
      HasAtIndex(c, p, s, 4);
      HasAtIndex(c, p, s, 5);
    }
  }

  /** A character that is no surrogate is one piece of the second pass. */
  lemma {:induction false} PieceOfChar(x: Char, c: seq<byte>, p: nat, e: nat)
    requires IsChar(x, false) && HasAt(c, p, CharText(x)) && p < e < |c| && !IsHigh(x) && !IsLow(x)
    requires x.CodeUnit? ==> p + 6 <= e
    ensures PieceAt(c, p, e) == Piece(|CharText(x)|, CharBytes(x))
  {
    hide HasAt, Hex4, EncodeUtf8, UnitOf;
    CharBytesAt(x, c, p);
  }

  /** A low surrogate that does not follow a high one is refused. */
  lemma {:induction false} PieceOfLow(x: Char, c: seq<byte>, p: nat, e: nat)
    requires IsChar(x, false) && HasAt(c, p, CharText(x)) && p + |CharText(x)| <= e < |c| && IsLow(x)
    ensures PieceAt(c, p, e) == Bad
  {
    hide HasAt, Hex4, EncodeUtf8, UnitOf;
    CharBytesAt(x, c, p);
  }

  /** A high surrogate is read together with a low one behind it, and is refused without one. */
  lemma {:induction false} PieceOfHigh(xs: seq<Char>, c: seq<byte>, p: nat, e: nat)
    requires CharsAt(xs, c, p, e, false) && xs != [] && IsHigh(xs[0])
    ensures p < e < |c|
    ensures PieceAt(c, p, e) == if StartsPair(xs) then Piece(12, EncodeUtf8(PairOf(xs[0], xs[1]))) else Bad
  {
    hide CharsAt, HasAt, Hex4, EncodeUtf8, UnitOf, HexValue, SimpleEscape, PieceAt, PairOf;
    CharsBound(xs, c, p, e, false);
    CharsStep(xs, c, p, e, false);
    CharBytesAt(xs[0], c, p);
    CharsBound(xs[1..], c, p + 6, e, false);
    if |xs| > 1 {
      CharsStep(xs[1..], c, p + 6, e, false);
      CharBytesAt(xs[1], c, p + 6);
      if StartsPair(xs) { PieceOfPair(xs[0], xs[1], c, p, e); } else { LoneHigh(xs[0], c, p, e); }
    } else {
      LoneHigh(xs[0], c, p, e);
    }
  }

  lemma PieceOfPair(x: Char, y: Char, c: seq<byte>, p: nat, e: nat)
    requires p + 12 <= e < |c| && IsHigh(x) && IsLow(y)
    requires c[p] == BACKSLASH && c[p + 1] == 117 && Hex4(c, p + 2) == UnitOf(x)
    requires c[p + 6] == BACKSLASH && c[p + 7] == 117 && Hex4(c, p + 8) == UnitOf(y)
    ensures PieceAt(c, p, e) == Piece(12, EncodeUtf8(PairOf(x, y)))
  {
    hide Hex4, EncodeUtf8, UnitOf;
    SurrogatePair(UnitOf(x), UnitOf(y));
  }

  lemma LoneHigh(x: Char, c: seq<byte>, p: nat, e: nat)
    requires p + 6 <= e < |c| && IsHigh(x) && c[p] == BACKSLASH && c[p + 1] == 117 && Hex4(c, p + 2) == UnitOf(x)
    requires p + 12 <= e && c[p + 6] == BACKSLASH && c[p + 7] == 117 ==> !LowSurrogate(Hex4(c, p + 8))
    ensures PieceAt(c, p, e) == Bad
  {
    hide Hex4, EncodeUtf8, UnitOf;
  }

  /** The second pass decodes the characters when surrogates are paired, and fails otherwise. */
  lemma {:induction false} UnescapeOfChars(xs: seq<Char>, c: seq<byte>, p: nat, e: nat)
    requires CharsAt(xs, c, p, e, false)
    ensures p <= e + 1 && e < |c|
    ensures if Paired(xs) then Unescape(c, p, e) == Ok(Decoded(xs), p + |CharsText(xs)|) else Unescape(c, p, e).Fail?
    decreases |xs|
  {
    hide CharsAt, PieceAt, EncodeUtf8, PairOf, CharBytes, IsHigh, IsLow, IsChar, CharText, CharsText, HasAt;
    CharsBound(xs, c, p, e, false);
    if xs == [] {
      NoChars();
    } else {
      CharsStep(xs, c, p, e, false);
      var next := p + |CharText(xs[0])|;
      CharsBound(xs[1..], c, next, e, false);
      UnitLength(xs[0]);
      if IsHigh(xs[0]) {
        PieceOfHigh(xs, c, p, e);
        if StartsPair(xs) {
          CharsStep(xs[1..], c, next, e, false);
          assert xs[1..][1..] == xs[2..];
          UnitLength(xs[1]);
          UnescapeOfChars(xs[2..], c, p + 12, e);
        }
      } else if IsLow(xs[0]) {
        PieceOfLow(xs[0], c, p, e);
      } else {
        PieceOfChar(xs[0], c, p, e);
        UnescapeOfChars(xs[1..], c, next, e);
      }
    }
  }

  lemma NoChars()
    ensures CharsText([]) == []
  {
  }

  lemma UnitLength(x: Char)
    ensures |CharText(x)| > 0
    ensures x.CodeUnit? ==> |CharText(x)| == 6
    ensures IsHigh(x) || IsLow(x) ==> x.CodeUnit?
    ensures x.Escaped? ==> |CharText(x)| == 2
  {
  }

  /** Where a string stands, its body and its characters do. */
  lemma {:induction false} TextParts(s: Text, c: seq<byte>, o: nat)
    requires IsText(s, false) && HasAt(c, o, StringText(s))
    ensures o < |c| && c[o] == QUOTE
    ensures var e := o + 1 + |Body(s)|;
            && HasAt(c, o + 1, Body(s)) && e < |c| && c[e] == QUOTE && CharsAt(s.chars, c, o + 1, e, false)
  {
    hide HasAt, AreChars, Unquoted;
    R.Bracketed(QUOTE, Body(s), QUOTE, c, o);
    var e := o + 1 + |Body(s)|;
    if s.overrun {
      LastIsQuote(s.chars);
      assert CharsText(s.chars) == Body(s) + [QUOTE];
      HasAtSplit(c, o, [QUOTE] + Body(s), [QUOTE]);
      HasAtSplit(c, o + 1, Body(s), [QUOTE]);
    }
  }

  lemma {:induction false} LastIsQuote(xs: seq<Char>)
    requires EndsInQuote(xs)
    ensures var s := CharsText(xs); s != [] && s[|s| - 1] == QUOTE
    decreases |xs|
  {
    if |xs| > 1 {
      assert xs[1..][|xs| - 2] == xs[|xs| - 1];
      LastIsQuote(xs[1..]);
    }
  }

  /** A string is read exactly when its surrogates are paired, up to the first NUL in it. */
  lemma {:induction false} ParseChars(s: Text, c: seq<byte>, o: nat)
    requires IsText(s, false) && HasAt(c, o, StringText(s))
    ensures o < |c| && c[o] == QUOTE
    ensures if Paired(s.chars) then ParseString(c, o) == Ok(CString(Decoded(s.chars)), o + |StringText(s)|)
            else ParseString(c, o).Fail?
  {
    hide HasAt, AreChars, CharsText, CharsAt, Paired, Decoded, Unescape, StringEnd, CString, Body;
    TextParts(s, c, o);
    var e := o + 1 + |Body(s)|;
    UnquotedBody(s);
    EndOfBody(Body(s), c, o + 1, e);
    UnescapeOfChars(s.chars, c, o + 1, e);
  }

  lemma UnquotedBody(s: Text)
    requires IsText(s, false)
    ensures Unquoted(Body(s))
  {
  }

  // ---------- the strict decoder is the grammar of strings ----------

  lemma {:induction false} CharsAreLoose(xs: seq<Char>)
    requires AreChars(xs, true)
    ensures AreChars(xs, false)
    decreases |xs|
  {
    if xs != [] {
      CharsAreLoose(xs[1..]);
    }
  }

  lemma {:induction false} StrictIsLoose(xs: seq<Char>, c: seq<byte>, p: nat, e: nat)
    requires CharsAt(xs, c, p, e, true)
    ensures CharsAt(xs, c, p, e, false)
  {
    CharsAreLoose(xs);
  }

  lemma {:induction false} UnitOfChar(x: Char, c: seq<byte>, p: nat)
    requires x.CodeUnit? && IsChar(x, true) && HasAt(c, p, CharText(x))
    ensures p + 6 <= |c| && c[p] == BACKSLASH && c[p + 1] == 117 && FourDigits(c, p + 2) && Hex4(c, p + 2) == UnitOf(x)
  {
    hide HasAt, HexValue, Hex4, UnitOf;
    CharBytesAt(x, c, p);
  }

  lemma {:induction false} StrictChar(x: Char, c: seq<byte>, p: nat)
    requires IsChar(x, true) && HasAt(c, p, CharText(x)) && !IsHigh(x) && !IsLow(x)
    ensures p + |CharText(x)| <= |c|
    ensures StrictText(c, p) == Then(CharBytes(x), StrictText(c, p + |CharText(x)|))
  {
    hide EncodeUtf8, Hex4, UnitOf, HasAt, FourDigits, HexValue;
    CharBytesAt(x, c, p);
    if x.CodeUnit? { UnitOfChar(x, c, p); }
  }

  lemma {:induction false} StrictPair(x: Char, y: Char, c: seq<byte>, p: nat)
    requires IsChar(x, true) && HasAt(c, p, CharText(x)) && IsHigh(x)
    requires IsChar(y, true) && HasAt(c, p + 6, CharText(y)) && IsLow(y)
    ensures p + 12 <= |c| && StrictText(c, p) == Then(EncodeUtf8(PairOf(x, y)), StrictText(c, p + 12))
  {
    hide EncodeUtf8, Hex4, UnitOf, HasAt, FourDigits, HexValue;
    UnitOfChar(x, c, p);
    UnitOfChar(y, c, p + 6);
  }

  /** A string of the grammar with paired surrogates is decoded by the strict decoder. */
  lemma {:induction false} StrictOfChars(xs: seq<Char>, c: seq<byte>, p: nat, e: nat)
    requires CharsAt(xs, c, p, e, true) && Paired(xs)
    ensures p <= |c| && StrictText(c, p) == Some((Decoded(xs), e))
    decreases |xs|
  {
    hide CharsAt, StrictText, EncodeUtf8, PairOf, CharBytes, IsHigh, IsLow, IsChar, CharText, HasAt;
    if xs == [] {
      NoCharsAtEnd(c, p, e);
    } else {
      CharsStep(xs, c, p, e, true);
      if StartsPair(xs) {
        UnitLength(xs[0]);
        UnitLength(xs[1]);
        CharsStep(xs[1..], c, p + 6, e, true);
        assert xs[1..][1..] == xs[2..];
        StrictPair(xs[0], xs[1], c, p);
        StrictOfChars(xs[2..], c, p + 12, e);
      } else {
        StrictChar(xs[0], c, p);
        StrictOfChars(xs[1..], c, p + |CharText(xs[0])|, e);
      }
    }
  }

  lemma NoCharsAtEnd(c: seq<byte>, p: nat, e: nat)
    requires CharsAt([], c, p, e, true)
    ensures p == e < |c| && StrictText(c, p) == Some(([], e))
  {
  }

  /** The character that the strict decoder reads at `p`. */
  function CharAt(c: seq<byte>, p: nat): Char
    requires p < |c|
  {
    if c[p] != BACKSLASH || p + 1 == |c| then Raw(c[p])
    else if c[p + 1] == 117 && p + 6 <= |c| then CodeUnit(c[p + 2], c[p + 3], c[p + 4], c[p + 5])
    else Escaped(c[p + 1])
  }

  lemma {:induction false} CharAtReads(c: seq<byte>, p: nat)
    requires p < |c| && c[p] >= 32 && c[p] != QUOTE
    requires c[p] == BACKSLASH ==>
               p + 1 < |c| && if c[p + 1] == 117 then FourDigits(c, p + 2) else SimpleEscape(c[p + 1]).Some?
    ensures IsChar(CharAt(c, p), true) && HasAt(c, p, CharText(CharAt(c, p)))
    ensures CharAt(c, p).CodeUnit? <==> c[p] == BACKSLASH && c[p + 1] == 117
    ensures CharAt(c, p).Raw? <==> c[p] != BACKSLASH
    ensures CharAt(c, p).CodeUnit? ==> Hex4(c, p + 2) == UnitOf(CharAt(c, p))
  {
  }

  lemma {:induction false} CharsCons(x: Char, xs: seq<Char>, c: seq<byte>, p: nat, e: nat)
    requires IsChar(x, true) && HasAt(c, p, CharText(x)) && CharsAt(xs, c, p + |CharText(x)|, e, true)
    ensures CharsAt([x] + xs, c, p, e, true)
  {
    hide HasAt, CharText, IsChar;
    assert ([x] + xs)[1..] == xs;
    HasAtSplit(c, p, CharText(x), CharsText(xs));
  }

  /** What the strict decoder accepts is a string of the grammar with paired surrogates. */
  lemma {:induction false} CharsOfStrict(c: seq<byte>, p: nat) returns (xs: seq<Char>)
    requires p <= |c| && StrictText(c, p).Some?
    ensures CharsAt(xs, c, p, StrictText(c, p).value.1, true) && Paired(xs)
    decreases |c| - p
  {
    hide CharsAt, EncodeUtf8, Hex4, HexValue, UnitOf, HasAt, FourDigits, SimpleEscape, CharAt, IsChar;
    if c[p] == QUOTE {
      xs := [];
      QuoteIsEnd(c, p);
    } else {
      var x := CharAt(c, p);
      CharAtReads(c, p);
      var e := StrictText(c, p).value.1;
      if x.CodeUnit? && HighSurrogate(UnitOf(x)) {
        var y := CharAt(c, p + 6);
        LowIsVisible(c, p + 6);
        CharAtReads(c, p + 6);
        var rest := CharsOfStrict(c, p + 12);
        CharsCons(y, rest, c, p + 6, e);
        CharsCons(x, [y] + rest, c, p, e);
        xs := [x] + ([y] + rest);
        assert xs[2..] == rest;
      } else {
        var rest := CharsOfStrict(c, p + |CharText(x)|);
        CharsCons(x, rest, c, p, e);
        xs := [x] + rest;
        assert xs[1..] == rest;
      }
    }
  }

  lemma LowIsVisible(c: seq<byte>, p: nat)
    requires p < |c| && c[p] == BACKSLASH
    ensures c[p] >= 32 && c[p] != QUOTE
  {
  }

  lemma QuoteIsEnd(c: seq<byte>, p: nat)
    requires p < |c| && c[p] == QUOTE
    ensures CharsAt([], c, p, p, true)
  {
  }

  /** The bytes from `p` up to the quote at `e` are characters of the grammar. */
  ghost predicate Grammatical(c: seq<byte>, p: nat, e: nat) {
    exists xs :: CharsAt(xs, c, p, e, true)
  }

  /**
   Among the strings the parser accepts, those of the grammar are exactly those in which every
   `\u` has its four hex digits and no raw control character stands.
   */
  lemma {:induction false} AcceptedIsGrammatical(c: seq<byte>, o: nat)
    requires o < |c| && ParseString(c, o).Ok?
    ensures var e := ParseString(c, o).next - 1;
            Grammatical(c, o + 1, e) <==> WellEscaped(c, o + 1, e)
  {
    hide CharsAt, StrictText, WellEscaped, Unescape, StringEnd, CString;
    var e := ParseString(c, o).next - 1;
    AcceptedIsStrict(c, o);
    StrictExactly(c, o);
    if StrictText(c, o + 1).Some? {
      var xs := CharsOfStrict(c, o + 1);
      assert Grammatical(c, o + 1, e);
    }
    if Grammatical(c, o + 1, e) {
      var p := o + 1;
      var xs :| CharsAt(xs, c, p, e, true);
      StrictIsLoose(xs, c, p, e);
      UnescapeOfChars(xs, c, o + 1, e);
      StrictOfChars(xs, c, o + 1, e);
    }
  }

  // ---------- values ----------

  /** What the parser can read at a depth: supported, and not nested too deeply. */
  predicate Fits(x: Syntax, d: nat) {
    Supported(x) && d + Height(ValueOf(x)) <= 1000
  }

  predicate AllFit(es: seq<Element>, d: nat) {
    AllSupported(es) && d + ItemsHeight(ValuesOf(es)) <= 1000
  }

  predicate EntryFits(e: Entry, d: nat) {
    Paired(e.key.chars) && Fits(e.element.value, d)
  }

  predicate EntriesFit(es: seq<Entry>, d: nat) {
    EntriesSupported(es) && d + MembersHeight(MembersOf(es)) <= 1000
  }

  /** Right when the syntax fits, and otherwise a failure or a stop at a byte of a number. */
  ghost predicate Reads<T>(r: Outcome<T>, good: bool, v: T, end: nat, c: seq<byte>) {
    if good then r == Ok(v, end) else r.Fail? || (r.next < |c| && IsNumeric(c[r.next]))
  }

  /** A value starts with a byte that is no white space and closes nothing. */
  lemma {:induction false} ValueStart(x: Syntax)
    requires IsJson(x, false)
    ensures TextOf(x) != []
    ensures var b := TextOf(x)[0];
            && b > 32 && b != RBRACKET && b != RBRACE
            && match x
               case NullWord => b == 110
               case FalseWord => b == 102
               case TrueWord => b == 116
               case NumberOf(_) => b == MINUS || IsDigit(b)
               case StringOf(_) => b == QUOTE
               case ArrayOf(_, _) => b == LBRACKET
               case ObjectOf(_, _) => b == LBRACE
  {
    hide NumeralText, IsNumeral, ElementsText, EntriesText, CharsText, AreElements, AreEntries, IsText, White;
    match x
    case NumberOf(n) => NumeralBytes(n);
    case _ =>
  }

  /** A value of the grammar, anywhere in a text, is read exactly when it fits. */
  lemma {:induction false} ParseSyntax(x: Syntax, c: seq<byte>, o: nat, d: nat)
    requires IsJson(x, false) && R.Stands(TextOf(x), c, o) && d <= NESTING_LIMIT
    ensures o < |c|
    ensures Reads(ParseValue(c, o, d), Fits(x, d), AsC(ValueOf(x)), o + |TextOf(x)|, c)
    decreases x, 4
  {
    hide ParseArray, ParseObject, ParseString, ParseNumber, NumeralText, NumeralValue, IsNumeral, ElementsText, EntriesText,
         AreElements, AreEntries, IsText, StringText, Decoded, Paired, CString, White, IsNumeric;
    ValueStart(x);
    HasAtIndex(c, o, TextOf(x), 0);
    R.LiteralsDiffer(c, o);
    match x
    case NullWord =>
    case FalseWord =>
    case TrueWord =>
    case NumberOf(n) => ParseNumeral(n, c, o);
    case StringOf(s) => ParseChars(s, c, o);
    case ArrayOf(gap, elements) => ParseArrayOf(gap, elements, c, o, d);
    case ObjectOf(gap, entries) => ParseObjectOf(gap, entries, c, o, d);
  }

  // ---------- elements ----------

  /** Where an element stands: its white space is skipped, and its value comes next. */
  lemma {:induction false} ElementStart(e: Element, c: seq<byte>, p: nat)
    requires IsElement(e, false) && HasAt(c, p, ElementText(e))
    ensures var s := p + |e.before|;
            && s < |c| && Skip(c, p) == s && c[s] > 32 && c[s] != RBRACKET && c[s] != RBRACE
            && HasAt(c, s, TextOf(e.value)) && HasAt(c, s + |TextOf(e.value)|, e.after)
  {
    hide HasAt, Skip, TextOf, IsJson, White;
    HasAtSplit(c, p, e.before + TextOf(e.value), e.after);
    HasAtSplit(c, p, e.before, TextOf(e.value));
    var s := p + |e.before|;
    ValueStart(e.value);
    HasAtIndex(c, s, TextOf(e.value), 0);
    HasAtBound(c, s, TextOf(e.value));
    R.SkipWhite(c, p, e.before);
  }

  /** The value of an element, in any text that does not continue it as a number. */
  lemma {:induction false} ElementValue(e: Element, c: seq<byte>, p: nat, d: nat)
    requires IsElement(e, false) && R.Stands(ElementText(e), c, p) && d <= NESTING_LIMIT
    ensures var s := p + |e.before|;
            && s < |c| && Skip(c, p) == s
            && Reads(ParseValue(c, s, d), Fits(e.value, d), AsC(ValueOf(e.value)), s + |TextOf(e.value)|, c)
    decreases e, 5
  {
    hide Skip, TextOf, IsJson, White, ParseValue, Fits, ValueOf, AsC, IsNumeric, HasAt, Reads;
    ElementStart(e, c, p);
    var s := p + |e.before|;
    GapStart(e.after);
    if e.after != [] { HasAtIndex(c, s + |TextOf(e.value)|, e.after, 0); }
    HasAtBound(c, s + |TextOf(e.value)|, e.after);
    ParseSyntax(e.value, c, s, d);
  }

  lemma GapStart(s: seq<byte>)
    requires White(s)
    ensures s != [] ==> !IsNumeric(s[0])
  {
  }

  /** An element before a separator or a closing bracket: the parser is there when it fits, and stuck otherwise. */
  lemma {:induction false} ElementRead(e: Element, c: seq<byte>, p: nat, d: nat)
    requires IsElement(e, false) && R.Stands(ElementText(e), c, p) && c[p + |ElementText(e)|] > 32 && d <= NESTING_LIMIT
    ensures Skip(c, p) < |c|
    ensures var r := ParseValue(c, Skip(c, p), d);
            if Fits(e.value, d) then
              r.Ok? && r.value == AsC(ValueOf(e.value)) && Skip(c, r.next) == p + |ElementText(e)|
            else
              r.Fail? || (Skip(c, r.next) < |c| && IsNumeric(c[Skip(c, r.next)]))
    decreases e, 6
  {
    hide Skip, TextOf, IsJson, White, ParseValue, Fits, ValueOf, AsC, HasAt;
    ElementStart(e, c, p);
    ElementValue(e, c, p, d);
    var r := ParseValue(c, Skip(c, p), d);
    if Fits(e.value, d) {
      R.SkipWhite(c, r.next, e.after);
    } else if r.Ok? {
      R.SkipNone(c, r.next);
    }
  }

  lemma {:induction false} ItemsStep(c: seq<byte>, p: nat, d: nat)
    requires Terminated(c) && p < |c|
    ensures var v := ParseValue(c, Skip(c, p), d);
            && (v.Fail? ==> ParseItems(c, p, d).Fail?)
            && (v.Ok? ==>
                  var m := Skip(c, v.next);
                  if c[m] == RBRACKET then ParseItems(c, p, d) == Ok([v.value], m + 1)
                  else if c[m] == COMMA then
                    m + 1 < |c| &&
                    match ParseItems(c, m + 1, d)
                    case Fail(_) => ParseItems(c, p, d).Fail?
                    case Ok(rest, end) => ParseItems(c, p, d) == Ok([v.value] + rest, end)
                  else ParseItems(c, p, d).Fail?)
  {
    hide ParseValue, Skip;
  }

  lemma {:induction false} AllFitStep(es: seq<Element>, d: nat)
    requires es != [] && d <= NESTING_LIMIT
    ensures AllFit(es, d) <==> Fits(es[0].value, d) && AllFit(es[1..], d)
    ensures ItemsAsC(ValuesOf(es)) == [AsC(ValueOf(es[0].value))] + ItemsAsC(ValuesOf(es[1..]))
  {
    hide Supported, Height, ValueOf, AsC;
    assert ValuesOf(es)[1..] == ValuesOf(es[1..]);
  }

  lemma NothingFits(d: nat)
    requires d <= NESTING_LIMIT
    ensures AllFit([], d) && ItemsAsC(ValuesOf([])) == []
    ensures EntriesFit([], d) && MembersAsC(MembersOf([])) == []
  {
  }

  /** Elements up to their closing bracket: read when all fit, refused otherwise. */
  lemma {:induction false} ParseElements(es: seq<Element>, c: seq<byte>, p: nat, d: nat)
    requires Terminated(c) && es != [] && AreElements(es, false) && HasAt(c, p, ElementsText(es)) && d <= NESTING_LIMIT
    requires var end := p + |ElementsText(es)|; end < |c| && c[end] == RBRACKET
    ensures p < |c|
    ensures var r := ParseItems(c, p, d);
            if AllFit(es, d) then r == Ok(ItemsAsC(ValuesOf(es)), p + |ElementsText(es)| + 1) else r.Fail?
    decreases es, 7
  {
    hide HasAt, Skip, ElementText, IsElement, ParseValue, ParseItems, Fits, AllFit, ValueOf, ValuesOf, AsC, ItemsAsC,
         Terminated;
    AllFitStep(es, d);
    NothingFits(d);
    var first := ElementText(es[0]);
    var next := p + |first|;
    if |es| == 1 {
      var v := AsC(ValueOf(es[0].value));
      assert es[1..] == [] && [v] + [] == [v];
    } else {
      var rest := ElementsText(es[1..]);
      assert ElementsText(es) == first + [COMMA] + rest;
      HasAtSplit(c, p, first + [COMMA], rest);
      HasAtSplit(c, p, first, [COMMA]);
      HasAtIndex(c, next, [COMMA], 0);
      ParseElements(es[1..], c, next + 1, d);
    }
    ElementStart(es[0], c, p);
    ElementRead(es[0], c, p, d);
    ItemsStep(c, p, d);
  }

  lemma ItemsSkips(c: seq<byte>, p: nat, first: nat, d: nat)
    requires Terminated(c) && p <= first < |c| && Skip(c, p) == first && Skip(c, first) == first
    ensures ParseItems(c, first, d) == ParseItems(c, p, d)
  {
    hide ParseValue, Skip;
  }

  lemma {:induction false} ParseArrayOf(gap: seq<byte>, elements: seq<Element>, c: seq<byte>, o: nat, d: nat)
    requires White(gap) && AreElements(elements, false) && R.Stands(TextOf(ArrayOf(gap, elements)), c, o) && d <= NESTING_LIMIT
    ensures o < |c| && c[o] == LBRACKET
    ensures Reads(ParseArray(c, o, d), AllFit(elements, d + 1), Array(ItemsAsC(ValuesOf(elements))),
                  o + |TextOf(ArrayOf(gap, elements))|, c)
    decreases elements, 8
  {
    hide HasAt, Skip, ParseItems, ItemsHeight, AllFit, ItemsAsC, ValuesOf, ElementsText, AreElements, ElementText,
         IsElement, IsNumeric;
    var body := if elements == [] then gap else ElementsText(elements);
    R.Bracketed(LBRACKET, body, RBRACKET, c, o);
    var end := o + 1 + |body|;
    if d == NESTING_LIMIT {
      TooDeep(elements, d + 1);
    } else if elements == [] {
      NothingFits(d + 1);
      R.SkipWhite(c, o + 1, gap);
    } else {
      var first := o + 1 + |elements[0].before|;
      ElementsStart(elements, c, o + 1);
      R.SkipNone(c, first);
      ItemsSkips(c, o + 1, first, d + 1);
      ParseElements(elements, c, o + 1, d + 1);
    }
  }

  lemma TooDeep(elements: seq<Element>, d: nat)
    requires d > NESTING_LIMIT
    ensures !AllFit(elements, d)
  {
  }

  lemma {:induction false} ElementsStart(es: seq<Element>, c: seq<byte>, p: nat)
    requires es != [] && AreElements(es, false) && HasAt(c, p, ElementsText(es))
    ensures var s := p + |es[0].before|; s < |c| && Skip(c, p) == s && c[s] > 32 && c[s] != RBRACKET
  {
    hide HasAt, Skip, ElementText, IsElement;
    if |es| > 1 {
      HasAtSplit(c, p, ElementText(es[0]) + [COMMA], ElementsText(es[1..]));
      HasAtSplit(c, p, ElementText(es[0]), [COMMA]);
    }
    ElementStart(es[0], c, p);
  }

  // ---------- entries ----------

  /** Where an entry stands: its key, its colon and its element. */
  lemma {:induction false} EntryParts(e: Entry, c: seq<byte>, p: nat)
    requires IsEntry(e, false) && HasAt(c, p, EntryText(e))
    ensures var k := p + |e.before|;
            var a := k + |StringText(e.key)|;
            var colon := a + |e.after|;
            && HasAt(c, k, StringText(e.key)) && HasAt(c, a, e.after)
            && k < |c| && c[k] == QUOTE && colon + 1 <= |c| && c[colon] == COLON
            && Skip(c, p) == k && Skip(c, a) == colon
            && colon + 1 == p + |KeyText(e)| && HasAt(c, colon + 1, ElementText(e.element))
  {
    hide HasAt, Skip, StringText, ElementText, IsElement, IsText, White;
    HasAtSplit(c, p, KeyText(e), ElementText(e.element));
    HasAtFour(c, p, e.before, StringText(e.key), e.after, [COLON]);
    var k := p + |e.before|;
    var colon := k + |StringText(e.key)| + |e.after|;
    HasAtIndex(c, colon, [COLON], 0);
    HasAtBound(c, colon, [COLON]);
    KeyStart(e.key);
    HasAtIndex(c, k, StringText(e.key), 0);
    HasAtBound(c, k, StringText(e.key));
    R.SkipWhite(c, p, e.before);
    R.SkipWhite(c, k + |StringText(e.key)|, e.after);
  }

  lemma KeyStart(key: Text)
    ensures |StringText(key)| > 0 && StringText(key)[0] == QUOTE
  {
  }

  /** A key is read exactly when its surrogates are paired; its element comes next. */
  lemma {:induction false} ParseKeyOf(e: Entry, c: seq<byte>, p: nat)
    requires Terminated(c) && IsEntry(e, false) && HasAt(c, p, EntryText(e))
    ensures p < |c|
    ensures var s := p + |KeyText(e)|;
            if Paired(e.key.chars) then s <= |c| && ParseKey(c, p) == Ok(CString(Decoded(e.key.chars)), Skip(c, s))
            else ParseKey(c, p).Fail?
  {
    hide HasAt, Skip, StringText, EntryText, KeyText, ElementText, IsElement, IsText, White, Paired, Decoded,
         ParseString, CString;
    EntryParts(e, c, p);
    ParseChars(e.key, c, p + |e.before|);
  }

  /** An entry before a separator or the closing brace. */
  lemma {:induction false} EntryRead(e: Entry, c: seq<byte>, p: nat, d: nat)
    requires IsEntry(e, false) && R.Stands(EntryText(e), c, p) && c[p + |EntryText(e)|] > 32 && d <= NESTING_LIMIT
    ensures p < |c|
    ensures var r := ParseMember(c, p, d);
            if EntryFits(e, d) then
              r == Ok(Member(CString(Decoded(e.key.chars)), AsC(ValueOf(e.element.value))), p + |EntryText(e)|)
            else r.Fail? || (r.next < |c| && IsNumeric(c[r.next]))
    decreases e, 7
  {
    hide HasAt, Skip, StringText, KeyText, ElementText, IsElement, IsText, White, Paired, Decoded, ParseKey,
         ParseValue, Fits,
         AsC, ValueOf, CString, IsNumeric;
    ParseKeyOf(e, c, p);
    EntryParts(e, c, p);
    ElementRead(e.element, c, p + |KeyText(e)|, d);
  }

  lemma {:induction false} MembersStep(c: seq<byte>, p: nat, d: nat)
    requires Terminated(c) && p < |c|
    ensures var r := ParseMember(c, p, d);
            && (r.Fail? ==> ParseMembers(c, p, d).Fail?)
            && (r.Ok? ==>
                  if c[r.next] == RBRACE then ParseMembers(c, p, d) == Ok([r.value], r.next + 1)
                  else if c[r.next] == COMMA then
                    r.next + 1 < |c| &&
                    match ParseMembers(c, r.next + 1, d)
                    case Fail(_) => ParseMembers(c, p, d).Fail?
                    case Ok(rest, end) => ParseMembers(c, p, d) == Ok([r.value] + rest, end)
                  else ParseMembers(c, p, d).Fail?)
  {
    hide ParseMember;
  }

  lemma {:induction false} EntriesFitStep(es: seq<Entry>, d: nat)
    requires es != [] && d <= NESTING_LIMIT
    ensures EntriesFit(es, d) <==> EntryFits(es[0], d) && EntriesFit(es[1..], d)
    ensures MembersAsC(MembersOf(es))
            == [Member(CString(Decoded(es[0].key.chars)), AsC(ValueOf(es[0].element.value)))] + MembersAsC(MembersOf(es[1..]))
  {
    hide Supported, Height, ValueOf, AsC, Paired, Decoded, CString;
    assert MembersOf(es)[1..] == MembersOf(es[1..]);
  }

  /** Entries up to their closing brace: read when all fit, refused otherwise. */
  lemma {:induction false} ParseEntries(es: seq<Entry>, c: seq<byte>, p: nat, d: nat)
    requires Terminated(c) && es != [] && AreEntries(es, false) && HasAt(c, p, EntriesText(es)) && d <= NESTING_LIMIT
    requires var end := p + |EntriesText(es)|; end < |c| && c[end] == RBRACE
    ensures p < |c|
    ensures var r := ParseMembers(c, p, d);
            if EntriesFit(es, d) then r == Ok(MembersAsC(MembersOf(es)), p + |EntriesText(es)| + 1) else r.Fail?
    decreases es, 8
  {
    hide HasAt, EntryText, IsEntry, ParseMember, ParseMembers, EntryFits, EntriesFit, MembersOf, MembersAsC, ValueOf,
         AsC, CString,
         Decoded, Terminated;
    EntriesFitStep(es, d);
    NothingFits(d);
    var first := EntryText(es[0]);
    var next := p + |first|;
    if |es| == 1 {
      var m := Member(CString(Decoded(es[0].key.chars)), AsC(ValueOf(es[0].element.value)));
      assert es[1..] == [] && [m] + [] == [m];
    } else {
      var rest := EntriesText(es[1..]);
      assert EntriesText(es) == first + [COMMA] + rest;
      HasAtSplit(c, p, first + [COMMA], rest);
      HasAtSplit(c, p, first, [COMMA]);
      HasAtIndex(c, next, [COMMA], 0);
      ParseEntries(es[1..], c, next + 1, d);
    }
    EntryRead(es[0], c, p, d);
    MembersStep(c, p, d);
  }

  lemma {:induction false} ParseObjectOf(gap: seq<byte>, entries: seq<Entry>, c: seq<byte>, o: nat, d: nat)
    requires White(gap) && AreEntries(entries, false) && R.Stands(TextOf(ObjectOf(gap, entries)), c, o) && d <= NESTING_LIMIT
    ensures o < |c| && c[o] == LBRACE
    ensures Reads(ParseObject(c, o, d), EntriesFit(entries, d + 1), Object(MembersAsC(MembersOf(entries))),
                  o + |TextOf(ObjectOf(gap, entries))|, c)
    decreases entries, 9
  {
    hide HasAt, Skip, ParseMembers, MembersHeight, EntriesFit, MembersAsC, MembersOf, EntriesText, AreEntries,
         EntryText, IsEntry, IsNumeric;
    var body := if entries == [] then gap else EntriesText(entries);
    R.Bracketed(LBRACE, body, RBRACE, c, o);
    var end := o + 1 + |body|;
    if d == NESTING_LIMIT {
      EntriesTooDeep(entries, d + 1);
    } else if entries == [] {
      NothingFits(d + 1);
      R.SkipWhite(c, o + 1, gap);
    } else {
      var first := o + 1 + |entries[0].before|;
      EntriesStart(entries, c, o + 1);
      R.SkipNone(c, first);
      R.ParseMembersSkips(c, o + 1, first, d + 1);
      ParseEntries(entries, c, o + 1, d + 1);
    }
  }

  lemma EntriesTooDeep(entries: seq<Entry>, d: nat)
    requires d > NESTING_LIMIT
    ensures !EntriesFit(entries, d)
  {
  }

  lemma {:induction false} EntriesStart(es: seq<Entry>, c: seq<byte>, p: nat)
    requires es != [] && AreEntries(es, false) && HasAt(c, p, EntriesText(es))
    ensures var s := p + |es[0].before|; s < |c| && Skip(c, p) == s && c[s] == QUOTE
  {
    hide HasAt, Skip, EntryText, IsEntry;
    if |es| > 1 {
      HasAtSplit(c, p, EntryText(es[0]) + [COMMA], EntriesText(es[1..]));
      HasAtSplit(c, p, EntryText(es[0]), [COMMA]);
    }
    EntryParts(es[0], c, p);
  }

  // ---------- whole texts ----------

  lemma {:induction false} SpacesToEnd(c: seq<byte>, o: nat)
    requires o <= |c| && forall i :: o <= i < |c| ==> c[i] <= 32
    ensures SpacesEnd(c, o) == |c|
    decreases |c| - o
  {
    if o < |c| {
      SpacesToEnd(c, o + 1);
    }
  }

  /** Behind the value only white space is left. */
  lemma {:induction false} SkipToEnd(c: seq<byte>, o: nat, s: seq<byte>)
    requires Terminated(c) && HasAt(c, o, s) && White(s) && o + |s| == |c| - 1
    ensures Skip(c, o) == |c| - 1 && !IsNumeric(c[o])
  {
    forall i | o <= i < |c| ensures c[i] <= 32 {
      if i < |c| - 1 { HasAtIndex(c, o, s, i - o); }
    }
    SpacesToEnd(c, o);
  }

  /** Where the text proper starts: behind a byte order mark. */
  lemma {:induction false} BomSkipped(t: Document)
    requires IsElement(t.element, false)
    ensures var c := DocumentText(t) + [NUL];
            var p := |BomText(t.bom)|;
            && Terminated(c) && p == (if HasBom(c) then 3 else 0) && R.Stands(ElementText(t.element), c, p)
            && p + |ElementText(t.element)| == |c| - 1
  {
    hide ElementText, TextOf, HasAt, IsElement;
    var text := DocumentText(t);
    var c := text + [NUL];
    var p := |BomText(t.bom)|;
    assert HasAt(c, 0, text + [NUL]) by { WholeText(c); }
    HasAtSplit(c, 0, text, [NUL]);
    HasAtSplit(c, 0, BomText(t.bom), ElementText(t.element));
    ElementBytes(t.element);
    if t.bom {
      assert c[..3] == BOM;
    } else {
      R.BomStart(c);
      HasAtIndex(c, 0, ElementText(t.element), 0);
    }
  }

  lemma {:induction false} ElementBytes(e: Element)
    requires IsElement(e, false)
    ensures ElementText(e) != [] && ElementText(e)[0] != 0xEF
  {
    hide TextOf, IsJson;
    ValueStart(e.value);
    MarkIsNoStart(e.value);
  }

  lemma MarkIsNoStart(x: Syntax)
    requires IsJson(x, false) && TextOf(x) != []
    ensures TextOf(x)[0] != 0xEF
  {
    ValueStart(x);
  }

  /**
   A text of the loose grammar is parsed to the value it denotes and to its end if and only if
   it nests at most 1000 deep, each number takes at most 63 bytes and surrogates come in pairs.
   With a terminator required, every other text of the grammar is refused.
   */
  lemma {:induction false} ParseLoose(t: Document, requireNullTerminated: bool)
    requires IsElement(t.element, false)
    ensures var text, x := DocumentText(t), t.element.value;
            var end := if requireNullTerminated then |text| else |text| - |t.element.after|;
            var r := ParseText(text, requireNullTerminated);
            && (r.Ok? && r.next == end <==> Fits(x, 0))
            && (Fits(x, 0) ==> r.value == AsC(ValueOf(x)))
            && (requireNullTerminated ==> (r.Ok? <==> Fits(x, 0)))
  {
    hide Skip, ParseValue, DocumentText, BomText, TextOf, IsJson, White, Fits, ValueOf, AsC, HasBom, HasAt, IsNumeric;
    var c := DocumentText(t) + [NUL];
    var p := |BomText(t.bom)|;
    var e := t.element;
    BomSkipped(t);
    ElementStart(e, c, p);
    ElementValue(e, c, p, 0);
    var end := p + |e.before| + |TextOf(e.value)|;
    SkipToEnd(c, end, e.after);
    var r := ParseValue(c, Skip(c, p), 0);
    if r.Ok? && !Fits(e.value, 0) {
      NumericIsVisible(c, r.next);
    }
  }

  lemma NumericIsVisible(c: seq<byte>, o: nat)
    requires o < |c| && IsNumeric(c[o])
    ensures Skip(c, o) == o && c[o] != NUL
  {
  }

  // ---------- the texts of RFC 8259 ----------

  lemma BlankIsWhite(s: seq<byte>)
    requires Blank(s)
    ensures White(s)
  {
  }

  lemma NumeralIsLoose(n: Numeral)
    requires IsNumeral(n, true)
    ensures IsNumeral(n, false)
  {
  }

  lemma TextIsLoose(s: Text)
    requires IsText(s, true)
    ensures IsText(s, false)
  {
    hide AreChars, CharsText, Unquoted;
    CharsAreLoose(s.chars);
    CharsUnquoted(s.chars);
  }

  lemma {:induction false} JsonIsLoose(x: Syntax)
    requires IsJson(x, true)
    ensures IsJson(x, false)
    decreases x, 2
  {
    hide IsNumeral, IsText, Blank, White;
    match x
    case NumberOf(n) => NumeralIsLoose(n);
    case StringOf(s) => TextIsLoose(s);
    case ArrayOf(gap, elements) =>
      BlankIsWhite(gap);
      ElementsAreLoose(elements);
    case ObjectOf(gap, entries) =>
      BlankIsWhite(gap);
      EntriesAreLoose(entries);
    case _ =>
  }

  lemma {:induction false} ElementIsLoose(e: Element)
    requires IsElement(e, true)
    ensures IsElement(e, false)
    decreases e, 3
  {
    hide Blank, White, IsJson;
    BlankIsWhite(e.before);
    BlankIsWhite(e.after);
    JsonIsLoose(e.value);
  }

  lemma {:induction false} ElementsAreLoose(es: seq<Element>)
    requires AreElements(es, true)
    ensures AreElements(es, false)
    decreases es, 1
  {
    hide IsElement;
    if es != [] {
      ElementIsLoose(es[0]);
      ElementsAreLoose(es[1..]);
    }
  }

  lemma {:induction false} EntriesAreLoose(es: seq<Entry>)
    requires AreEntries(es, true)
    ensures AreEntries(es, false)
    decreases es, 1
  {
    hide Blank, White, IsElement, IsText;
    if es != [] {
      BlankIsWhite(es[0].before);
      TextIsLoose(es[0].key);
      BlankIsWhite(es[0].after);
      ElementIsLoose(es[0].element);
      EntriesAreLoose(es[1..]);
    }
  }

  /**
   Completeness: a text of the grammar of RFC 8259, whatever white space, escapes, exponents or
   byte order mark it uses, is parsed to the value it denotes and to its end if and only if it
   nests at most 1000 deep, each number takes at most 63 bytes and surrogates come in pairs.
   With a terminator required, every other text of the grammar is refused.
   */
  lemma {:induction false} ParseDocument(t: Document, requireNullTerminated: bool)
    requires IsElement(t.element, true)
    ensures var text, x := DocumentText(t), t.element.value;
            var end := if requireNullTerminated then |text| else |text| - |t.element.after|;
            var r := ParseText(text, requireNullTerminated);
            && (r.Ok? && r.next == end <==> Fits(x, 0))
            && (Fits(x, 0) ==> r.value == AsC(ValueOf(x)))
            && (requireNullTerminated ==> (r.Ok? <==> Fits(x, 0)))
  {
    hide ParseText, DocumentText, Fits, ValueOf, AsC, IsElement;
    ElementIsLoose(t.element);
    ParseLoose(t, requireNullTerminated);
  }

  // ---------- strings with a NUL ----------

  lemma {:induction false} AsCIsSame(t: Json)
    ensures AsC(t) == t <==> NoNul(t)
    decreases t, 1
  {
    match t
    case String(s) => CStringIsSame(s);
    case Array(items) => ItemsAsCAreSame(items);
    case Object(members) => MembersAsCAreSame(members);
    case _ =>
  }

  lemma CStringIsSame(s: seq<byte>)
    ensures CString(s) == s <==> NulFree(s)
  {
    if NulFree(s) {
      CStringOfNulFree(s);
    }
  }

  lemma {:induction false} ItemsAsCAreSame(items: seq<Json>)
    ensures ItemsAsC(items) == items <==> NoNulItems(items)
    decreases items, 0
  {
    hide AsC, NoNul;
    if items != [] {
      AsCIsSame(items[0]);
      ItemsAsCAreSame(items[1..]);
      assert items == [items[0]] + items[1..];
      assert ItemsAsC(items)[0] == AsC(items[0]) && ItemsAsC(items)[1..] == ItemsAsC(items[1..]);
    }
  }

  lemma {:induction false} MembersAsCAreSame(members: seq<Member>)
    ensures MembersAsC(members) == members <==> NoNulMembers(members)
    decreases members, 0
  {
    hide AsC, NoNul, CString, NulFree;
    if members != [] {
      CStringIsSame(members[0].key);
      AsCIsSame(members[0].value);
      MembersAsCAreSame(members[1..]);
      assert members == [members[0]] + members[1..];
      assert MembersAsC(members)[1..] == MembersAsC(members[1..]);
      assert MembersAsC(members)[0] == Member(CString(members[0].key), AsC(members[0].value));
    }
  }

  /** The value itself comes back exactly when, besides, no string of it has a NUL. */
  lemma {:induction false} ParseDenotes(t: Document, requireNullTerminated: bool)
    requires IsElement(t.element, true)
    ensures var text, x := DocumentText(t), t.element.value;
            var end := if requireNullTerminated then |text| else |text| - |t.element.after|;
            var r := ParseText(text, requireNullTerminated);
            r.Ok? && r.value == ValueOf(x) && r.next == end <==> Fits(x, 0) && NoNul(ValueOf(x))
  {
    hide ParseText, DocumentText, Fits, ValueOf, AsC, IsElement, NoNul;
    ParseDocument(t, requireNullTerminated);
    AsCIsSame(ValueOf(t.element.value));
  }
}
