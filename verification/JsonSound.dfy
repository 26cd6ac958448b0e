/**
 Soundness: whatever the parser accepts is a text of the loose grammar, read to where that
 text ends and with the value it denotes.
 */
module JsonSound {
  import opened Bytes
  import opened JsonValue
  import opened JsonRender
  import opened JsonSyntax
  import opened JsonGrammar
  import opened JsonComplete
  import R = JsonRoundTrip

  // ---------- white space ----------

  lemma {:induction false} SkippedIsWhite(c: seq<byte>, o: nat)
    requires o < |c| && c[|c| - 1] == NUL
    ensures o <= Skip(c, o) < |c| && White(c[o..Skip(c, o)])
  {
    forall i | o <= i < Skip(c, o) ensures c[i] <= 32 {
    }
  }

  // ---------- numbers ----------

  lemma {:induction false} SoundExponent(s: seq<byte>, i: nat) returns (e: Exponent)
    requires i <= |s|
    ensures var end := ExponentEnd(s, i);
            && IsExponent(e) && ExponentText(e) == s[i..end] && ExponentOf(e) == ExponentValue(s, i, end)
  {
    hide DigitsEnd, DigitsValue;
    var end := ExponentEnd(s, i);
    if end == i {
      e := NoExponent;
    } else {
      var k := if i + 1 < |s| && IsSign(s[i + 1]) then i + 2 else i + 1;
      e := Exponent(s[i], s[i + 1..k], s[k..end]);
      assert s[i..end] == [s[i]] + s[i + 1..k] + s[k..end];
      ValueIsLocal(s, k, end, s[k..end]);
    }
  }

  /** The parts of `s` that `strtod` takes, as the numeral they make. */
  ghost predicate TakenAs(n: Numeral, s: seq<byte>, i0: nat, i1: nat, i2: nat) {
    && i0 <= i1 <= i2 <= |s| && |s| > 0 && i0 == (if n.minus then 1 else 0) && (n.minus <==> s[0] == MINUS)
    && n.whole == s[i0..i1] && AllDigits(n.whole) && AllDigits(n.fraction)
    && (if n.point then i1 < i2 && s[i1] == POINT && n.fraction == s[i1 + 1..i2] else i1 == i2 && n.fraction == [])
    && IsExponent(n.exponent) && ExponentText(n.exponent) == s[i2..ExponentEnd(s, i2)]
    && ExponentOf(n.exponent) == ExponentValue(s, i2, ExponentEnd(s, i2))
  }

  lemma {:induction false} TakenText(n: Numeral, s: seq<byte>, i0: nat, i1: nat, i2: nat)
    requires TakenAs(n, s, i0, i1, i2)
    ensures NumeralText(n) == s[..ExponentEnd(s, i2)]
  {
    hide AllDigits, ExponentEnd, ExponentValue, ExponentOf, ExponentText, IsExponent, HasAt;
    var a, f, e := MinusText(n.minus), FractionText(n), ExponentText(n.exponent);
    TakenParts(n, s, i0, i1, i2);
    HasAtSplit(s, 0, a, n.whole);
    HasAtSplit(s, 0, a + n.whole, f);
    HasAtSplit(s, 0, a + n.whole + f, e);
    AtFront(s, NumeralText(n));
  }

  lemma {:induction false} TakenParts(n: Numeral, s: seq<byte>, i0: nat, i1: nat, i2: nat)
    requires TakenAs(n, s, i0, i1, i2)
    ensures HasAt(s, 0, MinusText(n.minus)) && HasAt(s, i0, n.whole) && HasAt(s, i1, FractionText(n))
    ensures HasAt(s, i2, ExponentText(n.exponent)) && i2 + |ExponentText(n.exponent)| == ExponentEnd(s, i2)
    ensures i0 == |MinusText(n.minus)| && i1 == i0 + |n.whole| && i2 == i1 + |FractionText(n)|
  {
    hide AllDigits, ExponentEnd, ExponentValue, ExponentOf, ExponentText, IsExponent;
    if n.minus { assert s[..1] == [MINUS]; }
    if n.point { assert s[i1..i2] == [POINT] + s[i1 + 1..i2]; }
  }

  lemma AtFront(s: seq<byte>, t: seq<byte>)
    requires HasAt(s, 0, t)
    ensures s[..|t|] == t
  {
  }

  lemma {:induction false} TakenValue(n: Numeral, s: seq<byte>, i0: nat, i1: nat, i2: nat)
    requires TakenAs(n, s, i0, i1, i2)
    ensures var m := MantissaOf(s, i0, i1, i2)
                     * Pow10(ExponentValue(s, i2, ExponentEnd(s, i2)) - if i1 == i2 then 0 else i2 - i1 - 1);
            NumeralValue(n) == if n.minus then -m else m
  {
    hide AllDigits, DigitsValue, Pow10, ExponentEnd, ExponentValue, ExponentOf, ExponentText, IsExponent, NumeralValue;
    ValueIsLocal(s, i0, i1, n.whole);
    if n.point { ValueIsLocal(s, i1 + 1, i2, n.fraction); }
    NothingHasNoValue();
    PlacesOfNumeral(n, MantissaOf(s, i0, i1, i2),
                    ExponentValue(s, i2, ExponentEnd(s, i2)) - if i1 == i2 then 0 else i2 - i1 - 1);
  }

  /** What `strtod` takes is a numeral, and its value is that of the numeral. */
  lemma {:induction false} SoundNumeral(s: seq<byte>) returns (n: Numeral)
    requires s != [] && (s[0] == MINUS || IsDigit(s[0])) && Strtod(s).Some?
    ensures IsNumeral(n, false) && NumeralText(n) == s[..Strtod(s).value.1] && NumeralValue(n) == Strtod(s).value.0
  {
    hide DigitsEnd, DigitsValue, Pow10, ExponentEnd, ExponentValue, ExponentOf, ExponentText, IsExponent, Strtod, NumeralText,
         NumeralValue, TakenAs, AllDigits;
    var i0 := if s[0] == MINUS then 1 else 0;
    var i1 := DigitsEnd(s, i0);
    var i2 := if i1 < |s| && s[i1] == POINT then DigitsEnd(s, i1 + 1) else i1;
    HasDigits(s);
    StrtodParts(s, i0, i1, i2);
    n := Parts(s, i0, i1, i2);
    TakenText(n, s, i0, i1, i2);
    TakenValue(n, s, i0, i1, i2);
  }

  lemma HasDigits(s: seq<byte>)
    requires s != [] && (s[0] == MINUS || IsDigit(s[0])) && Strtod(s).Some?
    ensures var i0 := if s[0] == MINUS then 1 else 0;
            var i1 := DigitsEnd(s, i0);
            i0 < i1 || (i1 < |s| && s[i1] == POINT && i1 + 1 < DigitsEnd(s, i1 + 1))
  {
    hide DigitsEnd, DigitsValue, Pow10, ExponentEnd, ExponentValue;
  }

  lemma {:induction false} Parts(s: seq<byte>, i0: nat, i1: nat, i2: nat) returns (n: Numeral)
    requires s != [] && i0 == (if s[0] == MINUS then 1 else 0) && i1 == DigitsEnd(s, i0)
    requires i2 == if i1 < |s| && s[i1] == POINT then DigitsEnd(s, i1 + 1) else i1
    requires (i0 < i1 || i1 + 1 < i2) && (s[0] == MINUS || IsDigit(s[0]))
    ensures TakenAs(n, s, i0, i1, i2) && IsNumeral(n, false) && (n.minus <==> s[0] == MINUS)
  {
    hide DigitsEnd, ExponentEnd, ExponentValue, ExponentOf, ExponentText, IsExponent, AllDigits;
    var e := SoundExponent(s, i2);
    var point := i1 < |s| && s[i1] == POINT;
    DigitsRun(s, i0);
    if point { DigitsRun(s, i1 + 1); }
    NothingIsDigits();
    if s[0] != MINUS { DigitFirst(s); }
    n := Numeral(i0 == 1, s[i0..i1], point, if point then s[i1 + 1..i2] else [], e);
  }

  lemma DigitsRun(s: seq<byte>, i: nat)
    requires i <= |s|
    ensures AllDigits(s[i..DigitsEnd(s, i)])
  {
  }

  lemma NothingIsDigits()
    ensures AllDigits([])
  {
  }

  lemma DigitFirst(s: seq<byte>)
    requires s != [] && IsDigit(s[0])
    ensures DigitsEnd(s, 0) > 0
  {
  }

  /** A number that is read is a numeral of at most 63 bytes. */
  lemma {:induction false} SoundNumber(c: seq<byte>, o: nat) returns (n: Numeral)
    requires o < |c| && (c[o] == MINUS || IsDigit(c[o])) && ParseNumber(c, o).Ok?
    ensures IsNumeral(n, false) && HasAt(c, o, NumeralText(n)) && |NumeralText(n)| <= 63
    ensures ParseNumber(c, o) == Ok(NumeralValue(n), o + |NumeralText(n)|)
  {
    hide Strtod, NumericRun, NumeralText, NumeralValue, IsNumeral;
    var s := c[o..o + NumericRun(c, o, NUMBER_ROOM)];
    NumericFirst(c, o);
    n := SoundNumeral(s);
    assert s[..Strtod(s).value.1] == c[o..o + Strtod(s).value.1];
  }

  lemma NumericFirst(c: seq<byte>, o: nat)
    requires o < |c| && (c[o] == MINUS || IsDigit(c[o]))
    ensures NumericRun(c, o, NUMBER_ROOM) > 0
  {
  }

  // ---------- strings ----------

  /** What the first pass goes over has no quote outside an escape. */
  lemma {:induction false} SoundBody(c: seq<byte>, p: nat, e: nat)
    requires p <= |c| && StringEnd(c, p) == Some(e)
    ensures p <= e < |c| && c[e] == QUOTE && Unquoted(c[p..e])
    decreases |c| - p
  {
    if c[p] == QUOTE {
      assert c[p..e] == [];
    } else {
      var n := if c[p] == BACKSLASH then 2 else 1;
      SoundBody(c, p + n, e);
      assert c[p..e][n..] == c[p + n..e];
    }
  }

  lemma {:induction false} OneMoreChar(x: Char, xs: seq<Char>, c: seq<byte>, p: nat, e: nat)
    requires IsChar(x, false) && HasAt(c, p, CharText(x)) && CharsAt(xs, c, p + |CharText(x)|, e, false)
    requires p + |CharText(x)| == e + 1 ==> x == Escaped(QUOTE)
    ensures CharsAt([x] + xs, c, p, e, false)
    ensures |CharsText([x] + xs)| == |CharText(x)| + |CharsText(xs)|
  {
    hide HasAt, CharText, IsChar;
    var ys := [x] + xs;
    assert ys[1..] == xs;
    HasAtSplit(c, p, CharText(x), CharsText(xs));
    if xs != [] {
      TextNotEmpty(xs);
      assert ys[|ys| - 1] == xs[|xs| - 1];
    }
  }

  /** What the second pass reads are characters. */
  lemma {:induction false} SoundChars(c: seq<byte>, p: nat, e: nat) returns (xs: seq<Char>)
    requires p <= e + 1 && e < |c| && c[e] == QUOTE && Unescape(c, p, e).Ok?
    ensures CharsAt(xs, c, p, e, false) && p + |CharsText(xs)| == Unescape(c, p, e).next
    decreases e + 1 - p
  {
    hide CharsAt, PieceAt, CharText, CharsText, IsChar, HasAt, EncodeUtf8;
    if p >= e {
      xs := [];
      EmptyChars(c, p, e);
    } else {
      var n := PieceAt(c, p, e).length;
      var rest := SoundChars(c, p + n, e);
      if n == 12 {
        var x, y := UnitAt(c, p), UnitAt(c, p + 6);
        PieceFits(c, p, e);
        UnitStands(c, p);
        UnitStands(c, p + 6);
        OneMoreChar(y, rest, c, p + 6, e);
        OneMoreChar(x, [y] + rest, c, p, e);
        xs := [x] + ([y] + rest);
      } else {
        var x := PlainStands(c, p, e);
        OneMoreChar(x, rest, c, p, e);
        xs := [x] + rest;
      }
    }
  }

  lemma EmptyChars(c: seq<byte>, p: nat, e: nat)
    requires e <= p <= e + 1 && e < |c| && c[e] == QUOTE
    ensures CharsAt([], c, p, e, false) && CharsText([]) == []
  {
  }

  function UnitAt(c: seq<byte>, p: nat): Char
    requires p + 6 <= |c|
  {
    CodeUnit(c[p + 2], c[p + 3], c[p + 4], c[p + 5])
  }

  lemma UnitStands(c: seq<byte>, p: nat)
    requires p + 6 <= |c| && c[p] == BACKSLASH && c[p + 1] == 117
    ensures IsChar(UnitAt(c, p), false) && HasAt(c, p, CharText(UnitAt(c, p))) && |CharText(UnitAt(c, p))| == 6
  {
  }

  lemma PieceFits(c: seq<byte>, p: nat, e: nat)
    requires p < e < |c| && PieceAt(c, p, e).Piece? && PieceAt(c, p, e).length == 12
    ensures p + 12 <= e && c[p] == BACKSLASH && c[p + 1] == 117 && c[p + 6] == BACKSLASH && c[p + 7] == 117
  {
    hide Hex4, EncodeUtf8;
  }

  /** Any other step of the second pass reads one character. */
  lemma PlainStands(c: seq<byte>, p: nat, e: nat) returns (x: Char)
    requires p < e < |c| && c[e] == QUOTE && PieceAt(c, p, e).Piece? && PieceAt(c, p, e).length != 12
    ensures IsChar(x, false) && HasAt(c, p, CharText(x)) && |CharText(x)| == PieceAt(c, p, e).length
    ensures p + |CharText(x)| == e + 1 ==> x == Escaped(QUOTE)
  {
    hide Hex4, EncodeUtf8;
    if c[p] != BACKSLASH {
      x := Raw(c[p]);
    } else if c[p + 1] == 117 {
      x := UnitAt(c, p);
      UnitStands(c, p);
    } else {
      x := Escaped(c[p + 1]);
    }
  }

  /** A string that is read is one of the loose grammar, with its surrogates paired. */
  lemma {:induction false} SoundString(c: seq<byte>, o: nat) returns (s: Text)
    requires o < |c| && ParseString(c, o).Ok?
    ensures IsText(s, false) && HasAt(c, o, StringText(s)) && Paired(s.chars)
    ensures ParseString(c, o) == Ok(CString(Decoded(s.chars)), o + |StringText(s)|)
  {
    hide StringEnd, Unescape, HasAt, CharsText, AreChars, Decoded, Paired, CString, Unquoted, EndsInQuote;
    var e := StringEnd(c, o + 1).value;
    SoundBody(c, o + 1, e);
    var xs := SoundChars(c, o + 1, e);
    s := Text(xs, Unescape(c, o + 1, e).next == e + 1);
    BodyStands(s, c, o, e);
    ParseChars(s, c, o);
  }

  lemma {:induction false} BodyStands(s: Text, c: seq<byte>, o: nat, e: nat)
    requires o + 1 <= e && CharsAt(s.chars, c, o + 1, e, false) && s.overrun == (o + 1 + |CharsText(s.chars)| == e + 1)
    requires o < |c| && c[o] == QUOTE && Unquoted(c[o + 1..e])
    ensures IsText(s, false) && HasAt(c, o, StringText(s)) && o + |StringText(s)| == e + 1
  {
    hide AreChars, Unquoted, CharsText;
    NoChars();
    assert HasAt(c, o + 1, CharsText(s.chars));
    assert Body(s) == c[o + 1..e];
    assert c[o..e + 1] == [QUOTE] + c[o + 1..e] + [QUOTE];
  }

  // ---------- values ----------

  /** The syntax stands at `o` and ends where the parser does, which fits and denotes the value. */
  ghost predicate Explains(x: Syntax, r: Outcome<Json>, c: seq<byte>, o: nat, d: nat) {
    && IsJson(x, false) && HasAt(c, o, TextOf(x)) && Fits(x, d)
    && r == Ok(AsC(ValueOf(x)), o + |TextOf(x)|)
  }

  ghost predicate ExplainsItems(es: seq<Element>, r: Outcome<seq<Json>>, c: seq<byte>, p: nat, d: nat) {
    var end := p + |ElementsText(es)|;
    && es != [] && AreElements(es, false) && HasAt(c, p, ElementsText(es)) && AllFit(es, d)
    && end < |c| && c[end] == RBRACKET && r == Ok(ItemsAsC(ValuesOf(es)), end + 1)
  }

  ghost predicate ExplainsMembers(es: seq<Entry>, r: Outcome<seq<Member>>, c: seq<byte>, p: nat, d: nat) {
    var end := p + |EntriesText(es)|;
    && es != [] && AreEntries(es, false) && HasAt(c, p, EntriesText(es)) && EntriesFit(es, d)
    && end < |c| && c[end] == RBRACE && r == Ok(MembersAsC(MembersOf(es)), end + 1)
  }

  /** Soundness for values: whatever is read at an offset is a value of the loose grammar that stands there. */
  lemma {:induction false} SoundValue(c: seq<byte>, o: nat, d: nat) returns (x: Syntax)
    requires Terminated(c) && o < |c| && d <= NESTING_LIMIT && ParseValue(c, o, d).Ok?
    ensures Explains(x, ParseValue(c, o, d), c, o, d)
    decreases |c| - o, 1
  {
    hide ParseArray, ParseObject, ParseString, ParseNumber, NumeralText, NumeralValue, IsNumeral, StringText, IsText,
         Decoded, Paired, CString;
    if HasAt(c, o, NULL_TEXT) {
      x := NullWord;
    } else if HasAt(c, o, FALSE_TEXT) {
      x := FalseWord;
    } else if HasAt(c, o, TRUE_TEXT) {
      x := TrueWord;
    } else if c[o] == QUOTE {
      var s := SoundString(c, o);
      x := StringOf(s);
    } else if c[o] == MINUS || IsDigit(c[o]) {
      var n := SoundNumber(c, o);
      x := NumberOf(n);
    } else if c[o] == LBRACKET {
      x := SoundArray(c, o, d);
    } else {
      x := SoundObject(c, o, d);
    }
  }

  lemma {:induction false} SoundArray(c: seq<byte>, o: nat, d: nat) returns (x: Syntax)
    requires Terminated(c) && o < |c| && c[o] == LBRACKET && d <= NESTING_LIMIT && ParseArray(c, o, d).Ok?
    ensures Explains(x, ParseArray(c, o, d), c, o, d)
    decreases |c| - o, 0
  {
    hide Skip, ParseItems, ElementsText, AreElements, AllFit, ItemsAsC, ValuesOf, White;
    var first := Skip(c, o + 1);
    SkippedIsWhite(c, o + 1);
    if c[first] == RBRACKET {
      var gap := c[o + 1..first];
      x := ArrayOf(gap, []);
      EmptyArray(gap, c, o, first, d);
    } else {
      SkipAgain(c, o + 1);
      ItemsSkips(c, o + 1, first, d + 1);
      var es := SoundItems(c, o + 1, d + 1);
      x := ArrayOf([], es);
      FullArray(es, ParseItems(c, o + 1, d + 1), c, o, d);
    }
  }

  lemma SkipAgain(c: seq<byte>, p: nat)
    requires Terminated(c) && p < |c|
    ensures Skip(c, Skip(c, p)) == Skip(c, p)
  {
    if c[Skip(c, p)] > 32 { R.SkipNone(c, Skip(c, p)); } else { R.SkipAtEnd(c); }
  }

  lemma {:induction false} NothingInside(gap: seq<byte>, d: nat)
    requires d < NESTING_LIMIT
    ensures Fits(ArrayOf(gap, []), d) && AsC(ValueOf(ArrayOf(gap, []))) == Array([])
    ensures Fits(ObjectOf(gap, []), d) && AsC(ValueOf(ObjectOf(gap, []))) == Object([])
  {
    NothingFits(d);
    assert ValueOf(ArrayOf(gap, [])) == Array([]) && Height(Array([])) == 1 && Supported(ArrayOf(gap, []));
    assert ValueOf(ObjectOf(gap, [])) == Object([]) && Height(Object([])) == 1 && Supported(ObjectOf(gap, []));
  }

  lemma {:induction false} EmptyArray(gap: seq<byte>, c: seq<byte>, o: nat, first: nat, d: nat)
    requires o < first < |c| && gap == c[o + 1..first] && White(gap) && c[o] == LBRACKET && c[first] == RBRACKET
    requires d < NESTING_LIMIT
    ensures Explains(ArrayOf(gap, []), Ok(Array([]), first + 1), c, o, d)
  {
    assert c[o..first + 1] == [LBRACKET] + gap + [RBRACKET];
    NothingInside(gap, d);
  }

  lemma {:induction false} FullArray(es: seq<Element>, r: Outcome<seq<Json>>, c: seq<byte>, o: nat, d: nat)
    requires o + 1 < |c| && c[o] == LBRACKET && ExplainsItems(es, r, c, o + 1, d + 1)
    ensures Explains(ArrayOf([], es), Ok(Array(r.value), r.next), c, o, d)
  {
    hide ElementsText, AreElements, AllSupported, ItemsAsC, ValuesOf, ItemsHeight;
    var end := o + 1 + |ElementsText(es)|;
    assert c[o..end + 1] == [LBRACKET] + c[o + 1..end] + [RBRACKET];
  }

  /** The element around a value that is read: the white space on both sides belongs to it. */
  lemma {:induction false} ElementStands(x: Syntax, c: seq<byte>, p: nat, d: nat) returns (e: Element)
    requires Terminated(c) && p < |c|
    requires var s := Skip(c, p);
             s < |c| && ParseValue(c, s, d).Ok? && Explains(x, ParseValue(c, s, d), c, s, d)
    ensures e.value == x && IsElement(e, false) && HasAt(c, p, ElementText(e))
    ensures p + |ElementText(e)| == Skip(c, ParseValue(c, Skip(c, p), d).next) < |c|
  {
    hide Skip, ParseValue, IsJson, TextOf, Fits, AsC, ValueOf, White;
    var s := Skip(c, p);
    var next := ParseValue(c, s, d).next;
    var m := Skip(c, next);
    SkippedIsWhite(c, p);
    SkippedIsWhite(c, next);
    e := Element(c[p..s], x, c[next..m]);
    SliceConcat(c, p, s, next);
    SliceConcat(c, p, next, m);
  }

  lemma {:induction false} SoundItems(c: seq<byte>, p: nat, d: nat) returns (es: seq<Element>)
    requires Terminated(c) && p < |c| && d <= NESTING_LIMIT && ParseItems(c, p, d).Ok?
    ensures ExplainsItems(es, ParseItems(c, p, d), c, p, d)
    decreases |c| - p, 2
  {
    hide Skip, ParseValue, ParseItems, ElementsText, ElementText, AreElements, IsElement, AllFit, Fits, ItemsAsC, ValuesOf,
         AsC, ValueOf, IsJson, TextOf, HasAt;
    ItemsStep(c, p, d);
    SkippedIsWhite(c, p);
    var x := SoundValue(c, Skip(c, p), d);
    var e := ElementStands(x, c, p, d);
    var m := p + |ElementText(e)|;
    var rest: seq<Element> := [];
    if c[m] == COMMA {
      rest := SoundItems(c, m + 1, d);
    }
    es := [e] + rest;
    NothingIsJson();
    ItemsJoin(e, rest, c, p);
    AllFitStep(es, d);
    NothingFits(d);
    assert es[1..] == rest;
    assert ItemsAsC(ValuesOf(es)) == ParseItems(c, p, d).value;
  }

  lemma NothingIsJson()
    ensures AreElements([], false) && AreEntries([], false)
  {
  }

  lemma {:induction false} ItemsJoin(e: Element, rest: seq<Element>, c: seq<byte>, p: nat)
    requires IsElement(e, false) && HasAt(c, p, ElementText(e)) && AreElements(rest, false)
    requires var m := p + |ElementText(e)|;
             rest != [] ==> m < |c| && c[m] == COMMA && HasAt(c, m + 1, ElementsText(rest))
    ensures var es := [e] + rest;
            && AreElements(es, false) && HasAt(c, p, ElementsText(es))
            && |ElementsText(es)| == |ElementText(e)| + if rest == [] then 0 else 1 + |ElementsText(rest)|
  {
    hide ElementText, IsElement;
    var es := [e] + rest;
    assert es[1..] == rest;
    if rest != [] {
      var m := p + |ElementText(e)|;
      var end := m + 1 + |ElementsText(rest)|;
      SliceConcat(c, p, m, m + 1);
      SliceConcat(c, p, m + 1, end);
      assert c[m..m + 1] == [COMMA];
    }
  }

  lemma {:induction false} SoundObject(c: seq<byte>, o: nat, d: nat) returns (x: Syntax)
    requires Terminated(c) && o < |c| && c[o] == LBRACE && d <= NESTING_LIMIT && ParseObject(c, o, d).Ok?
    ensures Explains(x, ParseObject(c, o, d), c, o, d)
    decreases |c| - o, 0
  {
    hide Skip, ParseMembers, EntriesText, AreEntries, EntriesFit, MembersAsC, MembersOf, White;
    var first := Skip(c, o + 1);
    SkippedIsWhite(c, o + 1);
    if c[first] == RBRACE {
      var gap := c[o + 1..first];
      x := ObjectOf(gap, []);
      EmptyObject(gap, c, o, first, d);
    } else {
      SkipAgain(c, o + 1);
      R.ParseMembersSkips(c, o + 1, first, d + 1);
      var es := SoundMembers(c, o + 1, d + 1);
      x := ObjectOf([], es);
      FullObject(es, ParseMembers(c, o + 1, d + 1), c, o, d);
    }
  }

  lemma {:induction false} EmptyObject(gap: seq<byte>, c: seq<byte>, o: nat, first: nat, d: nat)
    requires o < first < |c| && gap == c[o + 1..first] && White(gap) && c[o] == LBRACE && c[first] == RBRACE
    requires d < NESTING_LIMIT
    ensures Explains(ObjectOf(gap, []), Ok(Object([]), first + 1), c, o, d)
  {
    assert c[o..first + 1] == [LBRACE] + gap + [RBRACE];
    NothingInside(gap, d);
  }

  lemma {:induction false} FullObject(es: seq<Entry>, r: Outcome<seq<Member>>, c: seq<byte>, o: nat, d: nat)
    requires o + 1 < |c| && c[o] == LBRACE && ExplainsMembers(es, r, c, o + 1, d + 1)
    ensures Explains(ObjectOf([], es), Ok(Object(r.value), r.next), c, o, d)
  {
    hide EntriesText, AreEntries, EntriesSupported, MembersAsC, MembersOf, MembersHeight;
    var end := o + 1 + |EntriesText(es)|;
    assert c[o..end + 1] == [LBRACE] + c[o + 1..end] + [RBRACE];
  }

  /** A key that is read stands there, with a colon behind it. */
  lemma {:induction false} SoundKey(c: seq<byte>, p: nat) returns (before: seq<byte>, key: Text, after: seq<byte>, next: nat)
    requires Terminated(c) && p < |c| && ParseKey(c, p).Ok?
    ensures White(before) && IsText(key, false) && White(after) && Paired(key.chars)
    ensures p < next < |c| && c[p..next] == before + StringText(key) + after + [COLON]
    ensures ParseKey(c, p) == Ok(CString(Decoded(key.chars)), Skip(c, next))
  {
    hide Skip, ParseString, StringText, IsText, Paired, Decoded, CString, White;
    var k := Skip(c, p);
    SkippedIsWhite(c, p);
    key := SoundString(c, k);
    var a := ParseString(c, k).next;
    var colon := Skip(c, a);
    SkippedIsWhite(c, a);
    before, after, next := c[p..k], c[a..colon], colon + 1;
    SliceConcat(c, p, k, a);
    SliceConcat(c, p, a, colon);
    SliceConcat(c, p, colon, next);
    assert c[colon..next] == [COLON];
  }

  lemma {:induction false} SoundMember(c: seq<byte>, p: nat, d: nat) returns (e: Entry)
    requires Terminated(c) && p < |c| && d <= NESTING_LIMIT && ParseMember(c, p, d).Ok?
    ensures IsEntry(e, false) && HasAt(c, p, EntryText(e)) && EntryFits(e, d)
    ensures p + |EntryText(e)| < |c|
    ensures ParseMember(c, p, d) == Ok(Member(CString(Decoded(e.key.chars)), AsC(ValueOf(e.element.value))), p + |EntryText(e)|)
    decreases |c| - p, 2
  {
    hide Skip, ParseValue, ParseKey, StringText, IsText, Paired, Decoded, CString, White, Fits, AsC, ValueOf, TextOf, IsJson,
         ElementText, IsElement;
    var before, key, after, next := SoundKey(c, p);
    SkippedIsWhite(c, next);
    var x := SoundValue(c, Skip(c, next), d);
    var element := ElementStands(x, c, next, d);
    e := Entry(before, key, after, element);
    var end := next + |ElementText(element)|;
    SliceConcat(c, p, next, end);
  }

  lemma {:induction false} SoundMembers(c: seq<byte>, p: nat, d: nat) returns (es: seq<Entry>)
    requires Terminated(c) && p < |c| && d <= NESTING_LIMIT && ParseMembers(c, p, d).Ok?
    ensures ExplainsMembers(es, ParseMembers(c, p, d), c, p, d)
    decreases |c| - p, 3
  {
    hide ParseMember, ParseMembers, EntriesText, EntryText, AreEntries, IsEntry, EntriesFit, EntryFits, MembersAsC, MembersOf,
         AsC, ValueOf, HasAt, CString, Decoded;
    MembersStep(c, p, d);
    var e := SoundMember(c, p, d);
    var m := p + |EntryText(e)|;
    var rest: seq<Entry> := [];
    if c[m] == COMMA {
      rest := SoundMembers(c, m + 1, d);
    }
    es := [e] + rest;
    NothingIsJson();
    MembersJoin(e, rest, c, p);
    EntriesFitStep(es, d);
    NothingFits(d);
    assert es[1..] == rest;
    assert MembersAsC(MembersOf(es)) == ParseMembers(c, p, d).value;
  }

  lemma {:induction false} MembersJoin(e: Entry, rest: seq<Entry>, c: seq<byte>, p: nat)
    requires IsEntry(e, false) && HasAt(c, p, EntryText(e)) && AreEntries(rest, false)
    requires var m := p + |EntryText(e)|;
             rest != [] ==> m < |c| && c[m] == COMMA && HasAt(c, m + 1, EntriesText(rest))
    ensures var es := [e] + rest;
            && AreEntries(es, false) && HasAt(c, p, EntriesText(es))
            && |EntriesText(es)| == |EntryText(e)| + if rest == [] then 0 else 1 + |EntriesText(rest)|
  {
    hide EntryText, IsEntry;
    var es := [e] + rest;
    assert es[1..] == rest;
    if rest != [] {
      var m := p + |EntryText(e)|;
      var end := m + 1 + |EntriesText(rest)|;
      SliceConcat(c, p, m, m + 1);
      SliceConcat(c, p, m + 1, end);
      assert c[m..m + 1] == [COMMA];
    }
  }

  // ---------- whole texts ----------

  /** The text is the document, which cJSON supports. */
  ghost predicate IsDocument(t: Document, text: seq<byte>) {
    IsElement(t.element, false) && Fits(t.element.value, 0) && DocumentText(t) == text
  }

  /**
   Soundness: a whole text that is accepted is a document of the loose grammar, with the value
   that it denotes.
   */
  lemma {:induction false} SoundText(text: seq<byte>) returns (t: Document)
    requires ParseText(text, true).Ok?
    ensures IsDocument(t, text) && ParseText(text, true) == Ok(AsC(ValueOf(t.element.value)), |text|)
  {
    hide Skip, ParseValue, ElementText, IsElement, Fits, AsC, ValueOf, HasBom;
    var c := text + [NUL];
    var p := if HasBom(c) then 3 else 0;
    BomInText(text);
    SkippedIsWhite(c, p);
    var x := SoundValue(c, Skip(c, p), 0);
    var e := ElementStands(x, c, p, 0);
    SkipStops(c, ParseValue(c, Skip(c, p), 0).next);
    t := Document(HasBom(c), e);
    assert c[..|text|] == text;
    assert text == text[..p] + text[p..];
    assert c[p..|text|] == text[p..];
  }

  lemma BomInText(text: seq<byte>)
    ensures var c := text + [NUL]; HasBom(c) ==> |text| >= 3 && text[..3] == BOM
  {
    var c := text + [NUL];
    if HasBom(c) {
      assert text[..3] == c[..3];
    }
  }

  lemma SkipStops(c: seq<byte>, o: nat)
    requires Terminated(c) && o < |c| && c[Skip(c, o)] == NUL
    ensures Skip(c, o) == |c| - 1
  {
  }

  /**
   The accepted language, exactly: with a terminator required, a text is accepted if and only if
   it is a document of the loose grammar that nests at most 1000 deep, with numbers of at most
   63 bytes and paired surrogates. All documents it is have the value that is returned.
   */
  lemma {:induction false} AcceptedExactly(text: seq<byte>)
    ensures ParseText(text, true).Ok? <==> exists t :: IsDocument(t, text)
    ensures forall t :: IsDocument(t, text) ==> ParseText(text, true) == Ok(AsC(ValueOf(t.element.value)), |text|)
  {
    hide ParseText, IsElement, Fits, DocumentText, AsC, ValueOf;
    if ParseText(text, true).Ok? {
      var t := SoundText(text);
      assert IsDocument(t, text);
    }
    forall t | IsDocument(t, text) ensures ParseText(text, true) == Ok(AsC(ValueOf(t.element.value)), |text|) {
      ParseLoose(t, true);
    }
  }

  /**
   Without a terminator, the front of the text up to the reported end is white space and a
   value of the loose grammar, and the rest is not looked at.
   */
  lemma {:induction false} SoundFront(text: seq<byte>) returns (bom: bool, before: seq<byte>, x: Syntax)
    requires ParseText(text, false).Ok?
    ensures White(before) && IsJson(x, false) && Fits(x, 0)
    ensures ParseText(text, false).value == AsC(ValueOf(x))
    ensures text[..ParseText(text, false).next] == BomText(bom) + before + TextOf(x)
  {
    hide Skip, ParseValue, IsJson, TextOf, Fits, AsC, ValueOf, HasBom, White;
    var c := text + [NUL];
    bom := HasBom(c);
    var p := if bom then 3 else 0;
    BomInText(text);
    SkippedIsWhite(c, p);
    var s := Skip(c, p);
    x := SoundValue(c, s, 0);
    before := c[p..s];
    var next := ParseValue(c, s, 0).next;
    SliceConcat(c, 0, p, s);
    SliceConcat(c, 0, s, next);
    assert text[..next] == c[0..next] && c[0..p] == text[..p];
  }
}
