/**
 What minifying keeps: comments and white space outside strings are dropped, and a text of RFC
 8259 stays one and denotes the same value, unless a string ends in an escaped backslash.
 */
module JsonMinifyMeaning {
  import opened Bytes
  import opened JsonValue
  import opened JsonRender
  import opened JsonSyntax
  import opened JsonGrammar
  import opened JsonMinify
  import C = JsonComplete

  // ---------- comments ----------

  /** A comment to the end of its line, or one between its marks. */
  predicate IsComment(s: seq<byte>) {
    || (|s| >= 3 && s[0] == '/' as int && s[1] == '/' as int && s[|s| - 1] == '\n' as int
        && forall j :: 2 <= j < |s| - 1 ==> s[j] != '\n' as int)
    || (|s| >= 4 && s[0] == '/' as int && s[1] == '*' as int && s[|s| - 2] == '*' as int && s[|s| - 1] == '/' as int
        && forall j :: 2 <= j < |s| - 2 ==> !(s[j] == '*' as int && s[j + 1] == '/' as int))
  }

  lemma {:induction false} LineEndsAt(c: seq<byte>, i: nat, e: nat)
    requires i <= e < |c| && c[e] == NEWLINE && forall j :: i <= j < e ==> c[j] != NEWLINE
    ensures LineEnd(c, i) == e + 1
    decreases e - i
  {
    if i < e {
      LineEndsAt(c, i + 1, e);
    }
  }

  lemma {:induction false} CommentEndsAt(c: seq<byte>, i: nat, e: nat)
    requires i <= e && e + 1 < |c| && c[e] == STAR && c[e + 1] == SLASH
    requires forall j :: i <= j < e ==> !(c[j] == STAR && c[j + 1] == SLASH)
    ensures CommentEnd(c, i) == e + 2
    decreases e - i
  {
    if i < e {
      CommentEndsAt(c, i + 1, e);
    }
  }

  /** Where the scan meets a comment, it goes on behind it. */
  lemma {:induction false} CommentSkipped(c: seq<byte>, i: nat, s: seq<byte>)
    requires IsComment(s) && HasAt(c, i, s)
    ensures i + |s| <= |c| && Minified(c, i) == Minified(c, i + |s|)
  {
    forall j | 0 <= j < |s| ensures c[i + j] == s[j] { HasAtIndex(c, i, s, j); }
    if s[1] == SLASH {
      forall j | i + 2 <= j < i + |s| - 1 ensures c[j] != NEWLINE { assert c[j] == s[j - i]; }
      LineEndsAt(c, i + 2, i + |s| - 1);
    } else {
      forall j | i + 2 <= j < i + |s| - 2 ensures !(c[j] == STAR && c[j + 1] == SLASH) {
        assert c[j] == s[j - i] && c[j + 1] == s[j - i + 1];
      }
      CommentEndsAt(c, i + 2, i + |s| - 2);
    }
  }

  /** The end of a string whose body starts at `i`, if the text has one. */
  function Closing(c: seq<byte>, i: nat): (r: Option<nat>)
    requires i <= |c|
    ensures r.Some? ==> i < r.value <= |c|
    decreases |c| - i
  {
    if i == |c| then None
    else if c[i] == QUOTE then Some(i + 1)
    else if c[i] == BACKSLASH then
      if i + 1 == |c| then None else if c[i + 1] == QUOTE then Closing(c, i + 2) else Closing(c, i + 1)
    else Closing(c, i + 1)
  }

  /** One step of the scan: where it goes on, and what it keeps. */
  function Stride(c: seq<byte>, i: nat): (next: nat)
    requires i < |c|
    ensures i < next <= |c|
  {
    if c[i] == SLASH && i + 1 < |c| && c[i + 1] == SLASH then LineEnd(c, i + 2)
    else if c[i] == SLASH && i + 1 < |c| && c[i + 1] == STAR then CommentEnd(c, i + 2)
    else if c[i] == QUOTE then SpanEnd(c, i + 1)
    else i + 1
  }

  function Kept(c: seq<byte>, i: nat): seq<byte>
    requires i < |c|
  {
    if IsBlank(c[i]) || c[i] == SLASH then [] else c[i..Stride(c, i)]
  }

  /** The step is over before the text is: not in a string, a comment or a slash that may start one. */
  predicate Closes(a: seq<byte>, i: nat)
    requires i < |a|
  {
    if a[i] == SLASH then
      if i + 1 == |a| then false
      else if a[i + 1] == SLASH then LineEnd(a, i + 2) > i + 2 && a[LineEnd(a, i + 2) - 1] == NEWLINE
      else if a[i + 1] == STAR then
        var e := CommentEnd(a, i + 2);
        e >= i + 4 && a[e - 2] == STAR && a[e - 1] == SLASH
      else true
    else a[i] == QUOTE ==> Closing(a, i + 1).Some?
  }

  /** From `i` on, the text ends outside strings and comments. */
  predicate Outside(a: seq<byte>, i: nat)
    requires i <= |a|
    decreases |a| - i
  {
    i == |a| || (Closes(a, i) && Outside(a, Stride(a, i)))
  }

  lemma {:induction false} SpanCloses(a: seq<byte>, x: seq<byte>, i: nat)
    requires i <= |a| && Closing(a, i).Some?
    ensures SpanEnd(a, i) == Closing(a, i).value && SpanEnd(a + x, i) == Closing(a, i).value && Closing(a + x, i) == Closing(a, i)
    decreases |a| - i
  {
    if a[i] != QUOTE {
      SpanCloses(a, x, if a[i] == BACKSLASH && a[i + 1] == QUOTE then i + 2 else i + 1);
    }
  }

  lemma {:induction false} LineCloses(a: seq<byte>, x: seq<byte>, i: nat)
    requires i <= |a| && LineEnd(a, i) > i && a[LineEnd(a, i) - 1] == NEWLINE
    ensures LineEnd(a + x, i) == LineEnd(a, i)
    decreases |a| - i
  {
    if a[i] != NEWLINE {
      LineCloses(a, x, i + 1);
    }
  }

  lemma {:induction false} CommentCloses(a: seq<byte>, x: seq<byte>, i: nat)
    requires i <= |a| && CommentEnd(a, i) >= i + 2
    requires var e := CommentEnd(a, i); a[e - 2] == STAR && a[e - 1] == SLASH
    ensures CommentEnd(a + x, i) == CommentEnd(a, i)
    decreases |a| - i
  {
    if !(a[i] == STAR && i + 1 < |a| && a[i + 1] == SLASH) {
      CommentCloses(a, x, i + 1);
    }
  }

  lemma MinifiedStride(c: seq<byte>, i: nat)
    requires i < |c|
    ensures Minified(c, i) == Kept(c, i) + Minified(c, Stride(c, i))
  {
    hide LineEnd, CommentEnd, SpanEnd;
    var rest := Minified(c, Stride(c, i));
    if IsBlank(c[i]) || c[i] == SLASH {
      assert Minified(c, i) == rest;
      assert [] + rest == rest;
    } else {
      assert c[i..i + 1] == [c[i]];
      assert Minified(c, i) == c[i..Stride(c, i)] + rest;
    }
  }

  lemma MinifiedEnd(c: seq<byte>)
    ensures Minified(c, |c|) == []
  {
  }

  lemma {:induction false} ClosesLonger(a: seq<byte>, x: seq<byte>, i: nat)
    requires i < |a| && Closes(a, i)
    ensures Closes(a + x, i) && Stride(a + x, i) == Stride(a, i) && Kept(a + x, i) == Kept(a, i)
  {
    hide LineEnd, CommentEnd, SpanEnd, Closing;
    assert (a + x)[i] == a[i] && (i + 1 < |a| ==> (a + x)[i + 1] == a[i + 1]);
    if a[i] == SLASH && a[i + 1] == SLASH {
      LineCloses(a, x, i + 2);
    } else if a[i] == SLASH && a[i + 1] == STAR {
      CommentCloses(a, x, i + 2);
    } else if a[i] == QUOTE {
      SpanCloses(a, x, i + 1);
    }
    assert (a + x)[i..Stride(a, i)] == a[i..Stride(a, i)];
  }

  /** A text that ends outside is minified without regard to what follows it. */
  lemma {:induction false} OutsideThen(a: seq<byte>, x: seq<byte>, i: nat)
    requires i <= |a| && Outside(a, i)
    ensures Minified(a + x, i) == Minified(a, i) + Minified(a + x, |a|)
    decreases |a| - i
  {
    hide Minified, Closes, Stride, Kept;
    if i == |a| {
      MinifiedEnd(a);
      assert [] + Minified(a + x, |a|) == Minified(a + x, |a|);
    } else {
      ClosesLonger(a, x, i);
      MinifiedStride(a, i);
      MinifiedStride(a + x, i);
      OutsideThen(a, x, Stride(a, i));
    }
  }

  lemma {:induction false} LineEndShifts(a: seq<byte>, x: seq<byte>, i: nat)
    requires i <= |x|
    ensures LineEnd(a + x, |a| + i) == |a| + LineEnd(x, i)
    decreases |x| - i
  {
    if i < |x| { LineEndShifts(a, x, i + 1); }
  }

  lemma {:induction false} CommentEndShifts(a: seq<byte>, x: seq<byte>, i: nat)
    requires i <= |x|
    ensures CommentEnd(a + x, |a| + i) == |a| + CommentEnd(x, i)
    decreases |x| - i
  {
    if i < |x| { CommentEndShifts(a, x, i + 1); }
  }

  lemma {:induction false} SpanEndShifts(a: seq<byte>, x: seq<byte>, i: nat)
    requires i <= |x|
    ensures SpanEnd(a + x, |a| + i) == |a| + SpanEnd(x, i)
    decreases |x| - i
  {
    if i < |x| {
      SpanEndShifts(a, x, i + 1);
      if i + 1 < |x| { SpanEndShifts(a, x, i + 2); }
    }
  }

  lemma {:induction false} StrideShifts(a: seq<byte>, x: seq<byte>, i: nat)
    requires i < |x|
    ensures Stride(a + x, |a| + i) == |a| + Stride(x, i) && Kept(a + x, |a| + i) == Kept(x, i)
  {
    hide LineEnd, CommentEnd, SpanEnd;
    assert (a + x)[|a| + i] == x[i] && (i + 1 < |x| ==> (a + x)[|a| + i + 1] == x[i + 1]);
    if x[i] == SLASH && i + 1 < |x| {
      LineEndShifts(a, x, i + 2);
      CommentEndShifts(a, x, i + 2);
    } else if x[i] == QUOTE {
      SpanEndShifts(a, x, i + 1);
    }
    assert (a + x)[|a| + i..|a| + Stride(x, i)] == x[i..Stride(x, i)];
  }

  /** What is kept from an offset on depends only on the text from there. */
  lemma {:induction false} MinifiedShifts(a: seq<byte>, x: seq<byte>, i: nat)
    requires i <= |x|
    ensures Minified(a + x, |a| + i) == Minified(x, i)
    decreases |x| - i
  {
    hide Minified, Stride, Kept;
    if i == |x| {
      MinifiedEnd(x);
      MinifiedEnd(a + x);
    } else {
      StrideShifts(a, x, i);
      MinifiedStride(x, i);
      MinifiedStride(a + x, |a| + i);
      MinifiedShifts(a, x, Stride(x, i));
    }
  }

  /** Outside strings, minifying drops a comment: the text is minified as if it were not there. */
  lemma {:induction false} MinifyDropsComments(a: seq<byte>, comment: seq<byte>, b: seq<byte>)
    requires Outside(a, 0) && IsComment(comment)
    ensures Minified(a + comment + b, 0) == Minified(a + b, 0)
  {
    hide Outside, IsComment, Minified;
    var x := comment + b;
    assert a + comment + b == a + x;
    OutsideThen(a, x, 0);
    OutsideThen(a, b, 0);
    MinifiedShifts(a, x, 0);
    MinifiedShifts(a, b, 0);
    assert x[0..|comment|] == comment;
    CommentSkipped(x, 0, comment);
    MinifiedShifts(comment, b, 0);
  }

  // ---------- texts end to end ----------

  lemma {:induction false} ClosingShifts(a: seq<byte>, x: seq<byte>, i: nat)
    requires i <= |x| && Closing(x, i).Some?
    ensures Closing(a + x, |a| + i) == Some(|a| + Closing(x, i).value)
    decreases |x| - i
  {
    if x[i] != QUOTE {
      ClosingShifts(a, x, if x[i] == BACKSLASH && x[i + 1] == QUOTE then i + 2 else i + 1);
    }
  }

  lemma {:induction false} ClosesShifts(a: seq<byte>, x: seq<byte>, i: nat)
    requires i < |x| && Closes(x, i)
    ensures Closes(a + x, |a| + i)
  {
    hide LineEnd, CommentEnd, Closing;
    assert (a + x)[|a| + i] == x[i] && (i + 1 < |x| ==> (a + x)[|a| + i + 1] == x[i + 1]);
    if x[i] == SLASH {
      LineEndShifts(a, x, i + 2);
      CommentEndShifts(a, x, i + 2);
    } else if x[i] == QUOTE {
      ClosingShifts(a, x, i + 1);
    }
  }

  lemma {:induction false} OutsideShifts(a: seq<byte>, x: seq<byte>, i: nat)
    requires i <= |x| && Outside(x, i)
    ensures Outside(a + x, |a| + i)
    decreases |x| - i
  {
    hide Closes, Stride;
    if i < |x| {
      ClosesShifts(a, x, i);
      StrideShifts(a, x, i);
      OutsideShifts(a, x, Stride(x, i));
    }
  }

  lemma {:induction false} OutsideOver(a: seq<byte>, x: seq<byte>, i: nat)
    requires i <= |a| && Outside(a, i) && Outside(a + x, |a|)
    ensures Outside(a + x, i)
    decreases |a| - i
  {
    hide Closes, Stride;
    if i < |a| {
      ClosesLonger(a, x, i);
      OutsideOver(a, x, Stride(a, i));
    }
  }

  /** The text ends outside strings and comments, and minifying it gives `m`. */
  predicate MinifiesTo(a: seq<byte>, m: seq<byte>) {
    Outside(a, 0) && Minified(a, 0) == m
  }

  /** What two such texts give one after the other. */
  lemma {:induction false} OneAfterOther(a: seq<byte>, m: seq<byte>, b: seq<byte>, n: seq<byte>)
    requires MinifiesTo(a, m) && MinifiesTo(b, n)
    ensures MinifiesTo(a + b, m + n)
  {
    hide Outside, Minified;
    OutsideShifts(a, b, 0);
    OutsideOver(a, b, 0);
    OutsideThen(a, b, 0);
    MinifiedShifts(a, b, 0);
  }

  lemma {:induction false} BlankVanishes(s: seq<byte>)
    requires Blank(s)
    ensures MinifiesTo(s, [])
    decreases |s|
  {
    if s == [] {
      assert Minified(s, 0) == [];
    } else {
      BlankVanishes(s[1..]);
      assert s == [s[0]] + s[1..];
      OneBlank(s[0]);
      OneAfterOther([s[0]], [], s[1..], []);
    }
  }

  lemma OneBlank(b: byte)
    requires IsBlank(b)
    ensures MinifiesTo([b], [])
  {
    MinifiedStride([b], 0);
    MinifiedEnd([b]);
    assert Outside([b], 1);
  }

  /** Bytes that are kept one by one. */
  predicate IsKept(b: byte) {
    !IsBlank(b) && b != SLASH && b != QUOTE
  }

  lemma OneByte(b: byte)
    requires IsKept(b)
    ensures MinifiesTo([b], [b])
  {
    MinifiedStride([b], 0);
    MinifiedEnd([b]);
    assert Outside([b], 1);
    assert [b][0..1] == [b] && [b] + [] == [b];
  }

  lemma {:induction false} BytesStay(s: seq<byte>)
    requires forall i :: 0 <= i < |s| ==> IsKept(s[i])
    ensures MinifiesTo(s, s)
    decreases |s|
  {
    if s == [] {
      assert Minified(s, 0) == [];
    } else {
      BytesStay(s[1..]);
      OneByte(s[0]);
      assert s == [s[0]] + s[1..];
      OneAfterOther([s[0]], [s[0]], s[1..], s[1..]);
    }
  }

  // ---------- strings ----------

  /** The one ending that the scan takes for an escaped quote. */
  predicate EndsInBackslash(xs: seq<Char>) {
    xs != [] && xs[|xs| - 1] == Escaped(BACKSLASH)
  }

  lemma {:induction false} ClosingSteps(s: seq<byte>, p: nat, n: nat)
    requires p + n <= |s| && forall i :: p <= i < p + n ==> s[i] != QUOTE && s[i] != BACKSLASH
    ensures Closing(s, p) == Closing(s, p + n)
    decreases n
  {
    if n > 0 {
      ClosingSteps(s, p + 1, n - 1);
    }
  }

  lemma {:induction false} ClosingChar(x: Char, s: seq<byte>, p: nat)
    requires IsChar(x, true) && HasAt(s, p, CharText(x)) && p + |CharText(x)| < |s|
    requires x == Escaped(BACKSLASH) ==> s[p + 2] != QUOTE
    ensures Closing(s, p) == Closing(s, p + |CharText(x)|)
  {
    hide HasAt, HexValue, Closing;
    CharIsLoose(x);
    C.CharBytesAt(x, s, p);
    match x
    case Raw(b) => ClosingSteps(s, p, 1);
    case Escaped(letter) => ClosingEscape(s, p);
    case CodeUnit(a, b, c, d) =>
      C.HexIsPlain(a);
      C.HexIsPlain(b);
      C.HexIsPlain(c);
      C.HexIsPlain(d);
      ClosingEscape(s, p);
      ClosingSteps(s, p + 2, 4);
  }

  lemma CharIsLoose(x: Char)
    requires IsChar(x, true)
    ensures IsChar(x, false)
  {
  }

  lemma ClosingEscape(s: seq<byte>, p: nat)
    requires p + 2 < |s| && s[p] == BACKSLASH && (s[p + 1] == BACKSLASH ==> s[p + 2] != QUOTE)
    ensures Closing(s, p) == Closing(s, p + 2)
  {
    if s[p + 1] != QUOTE {
      assert Closing(s, p) == Closing(s, p + 1);
    }
  }

  lemma {:induction false} ClosingChars(xs: seq<Char>, s: seq<byte>, p: nat)
    requires AreChars(xs, true) && !EndsInBackslash(xs) && HasAt(s, p, CharsText(xs))
    requires p + |CharsText(xs)| + 1 == |s| && s[p + |CharsText(xs)|] == QUOTE
    ensures Closing(s, p) == Some(|s|)
    decreases |xs|
  {
    hide HasAt, Closing, CharText, IsChar;
    if xs == [] {
      ClosingHere(s, p);
    } else {
      HasAtSplit(s, p, CharText(xs[0]), CharsText(xs[1..]));
      var next := p + |CharText(xs[0])|;
      if |xs| > 1 {
        assert xs[1..][|xs| - 2] == xs[|xs| - 1];
        NextIsNoQuote(xs[1..], s, next);
      }
      EscapedLength(xs[0]);
      ClosingChar(xs[0], s, p);
      ClosingChars(xs[1..], s, next);
    }
  }

  lemma ClosingHere(s: seq<byte>, p: nat)
    requires p < |s| && s[p] == QUOTE
    ensures Closing(s, p) == Some(p + 1)
  {
  }

  lemma EscapedLength(x: Char)
    ensures x.Escaped? ==> |CharText(x)| == 2
  {
  }

  lemma NextIsNoQuote(xs: seq<Char>, s: seq<byte>, p: nat)
    requires xs != [] && AreChars(xs, true) && HasAt(s, p, CharsText(xs))
    ensures p < |s| && s[p] != QUOTE
  {
    hide HasAt;
    HasAtSplit(s, p, CharText(xs[0]), CharsText(xs[1..]));
    HasAtIndex(s, p, CharText(xs[0]), 0);
    HasAtBound(s, p, CharText(xs[0]));
  }

  /** A string of RFC 8259 is kept as it is, unless it ends in an escaped backslash. */
  lemma {:induction false} StringStays(t: Text)
    requires IsText(t, true) && !EndsInBackslash(t.chars)
    ensures MinifiesTo(StringText(t), StringText(t))
  {
    hide AreChars, CharsText, Closing, SpanEnd, EndsInBackslash;
    var s := StringText(t);
    assert s[1..|s| - 1] == CharsText(t.chars);
    ClosingChars(t.chars, s, 1);
    assert s + [] == s;
    SpanCloses(s, [], 1);
    MinifiedStride(s, 0);
    MinifiedEnd(s);
    assert Outside(s, |s|);
    assert s[0..|s|] == s;
  }

  // ---------- values ----------

  /** The same syntax without any white space. */
  function Strip(x: Syntax): Syntax
    decreases x, 2
  {
    match x
    case ArrayOf(_, elements) => ArrayOf([], StripElements(elements))
    case ObjectOf(_, entries) => ObjectOf([], StripEntries(entries))
    case _ => x
  }

  function StripElement(e: Element): Element
    decreases e, 1
  {
    Element([], Strip(e.value), [])
  }

  function StripElements(es: seq<Element>): seq<Element>
    decreases es, 0
  {
    if es == [] then [] else [StripElement(es[0])] + StripElements(es[1..])
  }

  function StripEntry(e: Entry): Entry
    decreases e, 1
  {
    Entry([], e.key, [], StripElement(e.element))
  }

  function StripEntries(es: seq<Entry>): seq<Entry>
    decreases es, 0
  {
    if es == [] then [] else [StripEntry(es[0])] + StripEntries(es[1..])
  }

  /** No string and no key ends in an escaped backslash. */
  predicate NoneEnds(x: Syntax)
    decreases x, 2
  {
    match x
    case StringOf(s) => !EndsInBackslash(s.chars)
    case ArrayOf(_, elements) => NoElementEnds(elements)
    case ObjectOf(_, entries) => NoEntryEnds(entries)
    case _ => true
  }

  predicate NoElementEnds(es: seq<Element>)
    decreases es, 0
  {
    es == [] || (NoneEnds(es[0].value) && NoElementEnds(es[1..]))
  }

  predicate NoEntryEnds(es: seq<Entry>)
    decreases es, 0
  {
    es == [] || (!EndsInBackslash(es[0].key.chars) && NoneEnds(es[0].element.value) && NoEntryEnds(es[1..]))
  }

  /** Minifying a text of RFC 8259 drops the white space and nothing else. */
  lemma {:induction false} MinifySyntax(x: Syntax)
    requires IsJson(x, true) && NoneEnds(x)
    ensures MinifiesTo(TextOf(x), TextOf(Strip(x)))
    decreases x, 2
  {
    hide MinifiesTo, NumeralText, IsNumeral, StringText, IsText, EndsInBackslash, ElementsText, EntriesText, AreElements, AreEntries,
         StripElements, StripEntries, NoElementEnds, NoEntryEnds, Blank;
    match x
    case NumberOf(n) => NumeralStays(n);
    case StringOf(s) => StringStays(s);
    case ArrayOf(gap, elements) =>
      var inner := if elements == [] then gap else ElementsText(elements);
      var kept := if elements == [] then [] else ElementsText(StripElements(elements));
      if elements == [] { BlankVanishes(gap); } else { MinifyElements(elements); }
      NothingStripped();
      Enclosed(LBRACKET, inner, kept, RBRACKET);
    case ObjectOf(gap, entries) =>
      var inner := if entries == [] then gap else EntriesText(entries);
      var kept := if entries == [] then [] else EntriesText(StripEntries(entries));
      if entries == [] { BlankVanishes(gap); } else { MinifyEntries(entries); }
      NothingStripped();
      Enclosed(LBRACE, inner, kept, RBRACE);
    case _ => WordsStay();
  }

  lemma NothingStripped()
    ensures StripElements([]) == [] && StripEntries([]) == []
    ensures forall es :: es != [] ==> StripElements(es) != []
    ensures forall es :: es != [] ==> StripEntries(es) != []
  {
  }

  lemma WordsStay()
    ensures MinifiesTo(NULL_TEXT, NULL_TEXT) && MinifiesTo(FALSE_TEXT, FALSE_TEXT) && MinifiesTo(TRUE_TEXT, TRUE_TEXT)
  {
    hide MinifiesTo;
    BytesStay(NULL_TEXT);
    BytesStay(FALSE_TEXT);
    BytesStay(TRUE_TEXT);
  }

  lemma {:induction false} NumeralStays(n: Numeral)
    requires IsNumeral(n, true)
    ensures MinifiesTo(NumeralText(n), NumeralText(n))
  {
    hide MinifiesTo, NumeralText, IsNumeral;
    C.NumeralIsLoose(n);
    C.NumeralBytes(n);
    BytesStay(NumeralText(n));
  }

  lemma {:induction false} Enclosed(open: byte, inner: seq<byte>, kept: seq<byte>, close: byte)
    requires IsKept(open) && IsKept(close) && MinifiesTo(inner, kept)
    ensures MinifiesTo([open] + inner + [close], [open] + kept + [close])
  {
    hide MinifiesTo;
    OneByte(open);
    OneByte(close);
    OneAfterOther([open], [open], inner, kept);
    OneAfterOther([open] + inner, [open] + kept, [close], [close]);
  }

  lemma {:induction false} MinifyElement(e: Element)
    requires IsElement(e, true) && NoneEnds(e.value)
    ensures MinifiesTo(ElementText(e), ElementText(StripElement(e)))
    decreases e, 3
  {
    hide MinifiesTo, TextOf, IsJson, NoneEnds, Strip, Blank;
    BlankVanishes(e.before);
    BlankVanishes(e.after);
    MinifySyntax(e.value);
    var kept := TextOf(Strip(e.value));
    OneAfterOther(e.before, [], TextOf(e.value), kept);
    OneAfterOther(e.before + TextOf(e.value), [] + kept, e.after, []);
  }

  lemma {:induction false} MinifyElements(es: seq<Element>)
    requires es != [] && AreElements(es, true) && NoElementEnds(es)
    ensures MinifiesTo(ElementsText(es), ElementsText(StripElements(es)))
    decreases es, 1
  {
    hide MinifiesTo, ElementText, IsElement, NoneEnds, StripElement;
    MinifyElement(es[0]);
    var first, kept := ElementText(es[0]), ElementText(StripElement(es[0]));
    assert StripElements(es)[0] == StripElement(es[0]) && StripElements(es)[1..] == StripElements(es[1..]);
    if |es| > 1 {
      MinifyElements(es[1..]);
      OneByte(COMMA);
      OneAfterOther(first, kept, [COMMA], [COMMA]);
      OneAfterOther(first + [COMMA], kept + [COMMA], ElementsText(es[1..]), ElementsText(StripElements(es[1..])));
    } else {
      assert StripElements(es) == [StripElement(es[0])];
    }
  }

  lemma {:induction false} MinifyEntry(e: Entry)
    requires IsEntry(e, true) && NoneEnds(e.element.value) && !EndsInBackslash(e.key.chars)
    ensures MinifiesTo(EntryText(e), EntryText(StripEntry(e)))
    decreases e, 4
  {
    hide MinifiesTo, ElementText, IsElement, NoneEnds, StripElement, StringText, IsText, EndsInBackslash, Blank;
    BlankVanishes(e.before);
    BlankVanishes(e.after);
    StringStays(e.key);
    MinifyElement(e.element);
    OneByte(COLON);
    var k := StringText(e.key);
    OneAfterOther(e.before, [], k, k);
    OneAfterOther(e.before + k, [] + k, e.after, []);
    OneAfterOther(e.before + k + e.after, [] + k + [], [COLON], [COLON]);
    OneAfterOther(KeyText(e), [] + k + [] + [COLON], ElementText(e.element), ElementText(StripElement(e.element)));
  }

  lemma {:induction false} MinifyEntries(es: seq<Entry>)
    requires es != [] && AreEntries(es, true) && NoEntryEnds(es)
    ensures MinifiesTo(EntriesText(es), EntriesText(StripEntries(es)))
    decreases es, 1
  {
    hide MinifiesTo, EntryText, IsEntry, NoneEnds, StripEntry, EndsInBackslash;
    MinifyEntry(es[0]);
    var first, kept := EntryText(es[0]), EntryText(StripEntry(es[0]));
    assert StripEntries(es)[0] == StripEntry(es[0]) && StripEntries(es)[1..] == StripEntries(es[1..]);
    if |es| > 1 {
      MinifyEntries(es[1..]);
      OneByte(COMMA);
      OneAfterOther(first, kept, [COMMA], [COMMA]);
      OneAfterOther(first + [COMMA], kept + [COMMA], EntriesText(es[1..]), EntriesText(StripEntries(es[1..])));
    } else {
      assert StripEntries(es) == [StripEntry(es[0])];
    }
  }

  // ---------- the meaning ----------

  lemma {:induction false} StripKeeps(x: Syntax)
    requires IsJson(x, true)
    ensures IsJson(Strip(x), true) && ValueOf(Strip(x)) == ValueOf(x) && (Supported(Strip(x)) <==> Supported(x))
    decreases x, 2
  {
    hide AreElements, AreEntries, StripElements, StripEntries, ValuesOf, MembersOf, AllSupported, EntriesSupported, IsNumeral, IsText;
    match x
    case ArrayOf(gap, elements) => StripKeepsElements(elements);
    case ObjectOf(gap, entries) => StripKeepsEntries(entries);
    case _ =>
  }

  lemma {:induction false} StripKeepsElements(es: seq<Element>)
    requires AreElements(es, true)
    ensures var r := StripElements(es);
            AreElements(r, true) && ValuesOf(r) == ValuesOf(es) && (AllSupported(r) <==> AllSupported(es))
    decreases es, 1
  {
    hide IsJson, Strip, ValueOf, Supported;
    if es != [] {
      StripKeeps(es[0].value);
      StripKeepsElements(es[1..]);
      assert StripElements(es)[0] == StripElement(es[0]) && StripElements(es)[1..] == StripElements(es[1..]);
    }
  }

  lemma EntryIsJson(e: Entry)
    ensures IsEntry(e, true) ==> IsJson(e.element.value, true)
    ensures IsEntry(e, true) && IsJson(Strip(e.element.value), true) ==> IsEntry(StripEntry(e), true)
  {
    hide IsJson, IsText, Strip;
    if IsEntry(e, true) {
      assert IsElement(e.element, true);
    }
  }

  lemma {:induction false} StripKeepsEntries(es: seq<Entry>)
    requires AreEntries(es, true)
    ensures var r := StripEntries(es);
            AreEntries(r, true) && MembersOf(r) == MembersOf(es) && (EntriesSupported(r) <==> EntriesSupported(es))
    decreases es, 1
  {
    hide IsJson, Strip, ValueOf, Supported, IsText, Paired, Decoded;
    if es != [] {
      EntryIsJson(es[0]);
      StripKeeps(es[0].element.value);
      StripKeepsEntries(es[1..]);
      assert StripEntries(es)[0] == StripEntry(es[0]) && StripEntries(es)[1..] == StripEntries(es[1..]);
    }
  }

  /**
   Minifying preserves meaning: a text of RFC 8259 in which no string ends in an escaped
   backslash becomes the text of the same syntax without white space, which denotes the same
   value, and which the parser accepts exactly when it accepts the text itself.
   */
  lemma {:induction false} MinifyKeepsMeaning(e: Element)
    requires IsElement(e, true) && NoneEnds(e.value)
    ensures var text := ElementText(e);
            var small := Element([], Strip(e.value), []);
            && Minified(text, 0) == ElementText(small) && |ElementText(small)| <= |text|
            && IsElement(small, true) && ValueOf(small.value) == ValueOf(e.value)
            && (ParseText(text, true).Ok? <==> ParseText(Minified(text, 0), true).Ok?)
            && (ParseText(text, true).Ok? ==> ParseText(text, true).value == ParseText(Minified(text, 0), true).value)
  {
    hide IsJson, TextOf, Strip, ValueOf, AsC, Minified, ParseText, Supported;
    MinifyElement(e);
    StripKeeps(e.value);
    var small := Element([], Strip(e.value), []);
    assert Blank([]);
    NeverLonger(ElementText(e), 0);
    C.ParseDocument(Document(false, e), true);
    C.ParseDocument(Document(false, small), true);
    assert [] + ElementText(e) == ElementText(e);
    assert [] + ElementText(small) == ElementText(small);
  }

  lemma {:induction false} NeverLonger(c: seq<byte>, i: nat)
    requires i <= |c|
    ensures |Minified(c, i)| <= |c| - i
    decreases |c| - i
  {
    hide Minified, Stride;
    if i == |c| {
      MinifiedEnd(c);
    } else {
      MinifiedStride(c, i);
      NeverLonger(c, Stride(c, i));
    }
  }
}
