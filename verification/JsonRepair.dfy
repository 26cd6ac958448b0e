/**
 The error position: when the parser refuses a text, everything in front of the position it
 reports can be continued to a text that it accepts; where the name of a member is missing,
 everything but the byte in front of that position.
 */
module JsonRepair {
  import opened Bytes
  import opened JsonValue
  import opened JsonRender
  import opened JsonSyntax
  import opened JsonGrammar
  import opened JsonComplete
  import opened JsonSound
  import R = JsonRoundTrip

  /** The bytes from `o` up to `k` are the start of `t`. */
  predicate StartsAt(c: seq<byte>, o: nat, k: nat, t: seq<byte>) {
    o <= k < |c| && k - o <= |t| && c[o..k] == t[..k - o]
  }

  lemma StartsBehind(c: seq<byte>, o: nat, k: nat, a: seq<byte>, b: seq<byte>)
    requires HasAt(c, o, a) && StartsAt(c, o + |a|, k, b)
    ensures StartsAt(c, o, k, a + b)
  {
    SliceConcat(c, o, o + |a|, k);
    assert (a + b)[..k - o] == a + b[..k - o - |a|];
  }

  lemma StartsLonger(c: seq<byte>, o: nat, k: nat, a: seq<byte>, b: seq<byte>)
    requires StartsAt(c, o, k, a)
    ensures StartsAt(c, o, k, a + b)
  {
    assert (a + b)[..k - o] == a[..k - o];
  }

  lemma StartsOrder(c: seq<byte>, o: nat, k: nat, t: seq<byte>)
    requires StartsAt(c, o, k, t)
    ensures o <= k < |c|
  {
  }

  lemma StartsNowhere(c: seq<byte>, o: nat, t: seq<byte>)
    requires o < |c|
    ensures StartsAt(c, o, o, t)
  {
  }

  lemma StartsWhole(c: seq<byte>, o: nat, t: seq<byte>)
    requires HasAt(c, o, t) && o + |t| < |c|
    ensures StartsAt(c, o, o + |t|, t)
  {
    assert t[..|t|] == t;
  }

  /** `k` is the reported position, or the byte before it, which is not the quote of a name. */
  predicate Reported(c: seq<byte>, k: nat, at: nat) {
    k == at || (k + 1 == at && k < |c| && c[k] != QUOTE)
  }

  // ---------- strings ----------

  /** A body cut short has no quote outside an escape, if need be with one more byte. */
  lemma {:induction false} CutBody(c: seq<byte>, p: nat, q: nat, e: nat) returns (tail: seq<byte>)
    requires p <= |c| && StringEnd(c, p) == Some(e) && p <= q <= e
    ensures e < |c| && (tail == [] || tail == [97]) && Unquoted(c[p..q] + tail)
    decreases |c| - p
  {
    if p == q {
      tail := [];
      assert c[p..q] + tail == [];
    } else if c[p] == BACKSLASH && q == p + 1 {
      tail := [97];
      assert c[p..q] + tail == [BACKSLASH, 97] && [BACKSLASH, 97][2..] == [];
    } else {
      var n := if c[p] == BACKSLASH then 2 else 1;
      tail := CutBody(c, p + n, q, e);
      assert (c[p..q] + tail)[n..] == c[p + n..q] + tail;
    }
  }

  /** The characters in front of the escape that the second pass refuses, and maybe one more. */
  lemma {:induction false} CutChars(c: seq<byte>, p: nat, e: nat, tail: seq<byte>) returns (xs: seq<Char>)
    requires p <= e + 1 && e < |c| && c[e] == QUOTE && Unescape(c, p, e).Fail? && (tail == [] || tail == [97])
    ensures AreChars(xs, false) && Paired(xs) && CharsText(xs) == c[p..Unescape(c, p, e).at] + tail
    decreases e + 1 - p
  {
    hide PieceAt, CharText, CharsText, IsChar, HasAt, EncodeUtf8, AreChars, Paired;
    var at := Unescape(c, p, e).at;
    if PieceAt(c, p, e) == Bad {
      xs := if tail == [] then [] else [Raw(97)];
      FewChars();
      assert c[p..at] + tail == tail;
    } else {
      var n := PieceAt(c, p, e).length;
      var rest := CutChars(c, p + n, e, tail);
      if n == 12 {
        var x, y := UnitAt(c, p), UnitAt(c, p + 6);
        PieceFits(c, p, e);
        UnitStands(c, p);
        UnitStands(c, p + 6);
        PairedUnits(c, p, e);
        ConsPair(x, y, rest);
        xs := [x, y] + rest;
        HasAtSlice(c, p, CharText(x));
        HasAtSlice(c, p + 6, CharText(y));
        CutSlices(c, p, p + 6, p + 12, at, tail, CharText(x), CharText(y), CharsText(rest));
      } else {
        var x := PlainStands(c, p, e);
        NoSurrogate(x, c, p, e);
        ConsChar(x, rest);
        xs := [x] + rest;
        HasAtSlice(c, p, CharText(x));
        assert c[p..p] == [];
        CutSlices(c, p, p, p + n, at, tail, [], CharText(x), CharsText(rest));
        assert [] + CharText(x) + CharsText(rest) == CharText(x) + CharsText(rest);
      }
    }
  }

  lemma HasAtSlice(c: seq<byte>, o: nat, s: seq<byte>)
    requires HasAt(c, o, s)
    ensures c[o..o + |s|] == s
  {
  }

  lemma FewChars()
    ensures AreChars([], false) && Paired([]) && CharsText([]) == []
    ensures AreChars([Raw(97)], false) && Paired([Raw(97)]) && CharsText([Raw(97)]) == [97]
  {
    assert [Raw(97)][1..] == [];
  }

  lemma CutSlices(c: seq<byte>, p: nat, m: nat, n: nat, at: nat, tail: seq<byte>, x: seq<byte>, y: seq<byte>, z: seq<byte>)
    requires p <= m <= n <= at <= |c| && c[p..m] == x && c[m..n] == y && z == c[n..at] + tail
    ensures x + y + z == c[p..at] + tail
  {
    SliceConcat(c, p, m, n);
    SliceConcat(c, p, n, at);
    assert x + y + z == c[p..n] + c[n..at] + tail;
  }

  lemma PairedUnits(c: seq<byte>, p: nat, e: nat)
    requires p < e < |c| && PieceAt(c, p, e).Piece? && PieceAt(c, p, e).length == 12 && p + 12 <= |c|
    ensures IsHigh(UnitAt(c, p)) && IsLow(UnitAt(c, p + 6))
  {
    hide EncodeUtf8, HexValue;
  }

  lemma NoSurrogate(x: Char, c: seq<byte>, p: nat, e: nat)
    requires p < e < |c| && PieceAt(c, p, e).Piece? && PieceAt(c, p, e).length != 12
    requires IsChar(x, false) && HasAt(c, p, CharText(x))
    ensures !IsHigh(x) && !IsLow(x)
  {
    hide EncodeUtf8, HexValue, HasAt, Hex4, UnitOf;
    CharBytesAt(x, c, p);
  }

  lemma ConsChar(x: Char, xs: seq<Char>)
    requires IsChar(x, false) && !IsHigh(x) && !IsLow(x) && AreChars(xs, false) && Paired(xs)
    ensures AreChars([x] + xs, false) && Paired([x] + xs) && CharsText([x] + xs) == CharText(x) + CharsText(xs)
  {
    assert ([x] + xs)[1..] == xs;
  }

  lemma ConsPair(x: Char, y: Char, xs: seq<Char>)
    requires IsChar(x, false) && IsChar(y, false) && IsHigh(x) && IsLow(y) && AreChars(xs, false) && Paired(xs)
    ensures AreChars([x, y] + xs, false) && Paired([x, y] + xs)
    ensures CharsText([x, y] + xs) == CharText(x) + CharText(y) + CharsText(xs)
  {
    var ys := [x, y] + xs;
    assert ys[1..] == [y] + xs && ys[2..] == xs && ([y] + xs)[1..] == xs;
  }

  /** A string that is refused can be continued from where it is. */
  lemma {:induction false} RepairString(c: seq<byte>, o: nat) returns (s: Text, k: nat)
    requires Terminated(c) && o < |c| && ParseString(c, o).Fail?
    ensures IsText(s, false) && Paired(s.chars) && StartsAt(c, o, k, StringText(s)) && Reported(c, k, ParseString(c, o).at)
  {
    hide StringEnd, Unescape, Paired, AreChars, CharsText, Unquoted;
    FewChars();
    s, k := Text([], false), o + 1;
    if c[o] != QUOTE {
      NothingUnquoted();
      k := o;
    } else if StringEnd(c, o + 1) == None {
      NothingUnquoted();
      QuoteBeforeEnd(c, o);
      assert StringText(s)[..1] == [QUOTE];
    } else {
      var e := StringEnd(c, o + 1).value;
      SoundBody(c, o + 1, e);
      k := Unescape(c, o + 1, e).at;
      var tail := CutBody(c, o + 1, k, e);
      var xs := CutChars(c, o + 1, e, tail);
      s := Text(xs, false);
      CutStarts(s, c, o, k, tail);
    }
  }

  lemma CutStarts(s: Text, c: seq<byte>, o: nat, k: nat, tail: seq<byte>)
    requires o < k < |c| && c[o] == QUOTE && !s.overrun && CharsText(s.chars) == c[o + 1..k] + tail
    ensures StartsAt(c, o, k, StringText(s))
  {
    hide CharsText;
    assert StringText(s) == [QUOTE] + c[o + 1..k] + (tail + [QUOTE]);
    assert c[o..k] == [QUOTE] + c[o + 1..k];
  }

  lemma NothingUnquoted()
    ensures Unquoted([])
  {
  }

  lemma QuoteBeforeEnd(c: seq<byte>, o: nat)
    requires Terminated(c) && o < |c| && c[o] == QUOTE
    ensures o + 1 < |c|
  {
  }

  // ---------- values ----------

  lemma Simple(d: nat)
    requires d <= NESTING_LIMIT
    ensures IsJson(NullWord, false) && Fits(NullWord, d)
  {
  }

  /** A value that is refused can be continued from where it is. */
  lemma {:induction false} RepairValue(c: seq<byte>, o: nat, d: nat) returns (x: Syntax, k: nat)
    requires Terminated(c) && o < |c| && d <= NESTING_LIMIT && ParseValue(c, o, d).Fail?
    ensures IsJson(x, false) && Fits(x, d) && StartsAt(c, o, k, TextOf(x)) && Reported(c, k, ParseValue(c, o, d).at)
    decreases |c| - o, 1
  {
    hide ParseArray, ParseObject, ParseString, ParseNumber, HasAt, IsJson, Fits, TextOf, StartsAt;
    Simple(d);
    x, k := NullWord, o;
    StartsNowhere(c, o, TextOf(x));
    if c[o] == QUOTE && ParseString(c, o).Fail? {
      var s;
      s, k := RepairString(c, o);
      x := StringOf(s);
      StringFits(s, d);
    } else if c[o] == LBRACKET && ParseArray(c, o, d).Fail? {
      x, k := RepairArray(c, o, d);
    } else if c[o] == LBRACE && ParseObject(c, o, d).Fail? {
      x, k := RepairObject(c, o, d);
    }
  }

  lemma StringFits(s: Text, d: nat)
    requires IsText(s, false) && Paired(s.chars) && d <= NESTING_LIMIT
    ensures IsJson(StringOf(s), false) && Fits(StringOf(s), d) && TextOf(StringOf(s)) == StringText(s)
  {
  }

  lemma {:induction false} RepairArray(c: seq<byte>, o: nat, d: nat) returns (x: Syntax, k: nat)
    requires Terminated(c) && o < |c| && c[o] == LBRACKET && d <= NESTING_LIMIT && ParseArray(c, o, d).Fail?
    ensures IsJson(x, false) && Fits(x, d) && StartsAt(c, o, k, TextOf(x)) && Reported(c, k, ParseArray(c, o, d).at)
    decreases |c| - o, 0
  {
    hide Skip, ParseItems, ElementsText, AreElements, AllFit, StartsAt;
    Simple(d);
    x, k := NullWord, o;
    StartsNowhere(c, o, TextOf(x));
    if d < NESTING_LIMIT {
      SkipAgain(c, o + 1);
      ItemsSkips(c, o + 1, Skip(c, o + 1), d + 1);
      var es;
      es, k := RepairItems(c, o + 1, d + 1);
      x := ArrayOf([], es);
      ArrayFits(es, d);
      assert HasAt(c, o, [LBRACKET]);
      StartsBehind(c, o, k, [LBRACKET], ElementsText(es));
      StartsLonger(c, o, k, [LBRACKET] + ElementsText(es), [RBRACKET]);
    }
  }

  lemma ArrayFits(es: seq<Element>, d: nat)
    requires es != [] && AreElements(es, false) && AllFit(es, d + 1)
    ensures IsJson(ArrayOf([], es), false) && Fits(ArrayOf([], es), d)
    ensures TextOf(ArrayOf([], es)) == [LBRACKET] + ElementsText(es) + [RBRACKET]
  {
    hide AreElements, ElementsText;
  }

  /** An element whose value is repaired. */
  lemma {:induction false} CutElement(x: Syntax, c: seq<byte>, p: nat, k: nat) returns (e: Element)
    requires Terminated(c) && p < |c| && IsJson(x, false) && StartsAt(c, Skip(c, p), k, TextOf(x))
    ensures e.value == x && IsElement(e, false) && StartsAt(c, p, k, ElementText(e))
  {
    hide Skip, IsJson, TextOf, White, StartsAt;
    var s := Skip(c, p);
    SkippedIsWhite(c, p);
    e := Element(c[p..s], x, []);
    NothingIsWhite();
    StartsBehind(c, p, k, e.before, TextOf(x));
    assert e.before + TextOf(x) + [] == e.before + TextOf(x);
  }

  lemma NothingIsWhite()
    ensures White([])
  {
  }

  lemma {:induction false} RepairItems(c: seq<byte>, p: nat, d: nat) returns (es: seq<Element>, k: nat)
    requires Terminated(c) && p < |c| && d <= NESTING_LIMIT && ParseItems(c, p, d).Fail?
    ensures es != [] && AreElements(es, false) && AllFit(es, d) && StartsAt(c, p, k, ElementsText(es))
    ensures Reported(c, k, ParseItems(c, p, d).at)
    decreases |c| - p, 2
  {
    hide Skip, ParseValue, ElementsText, ElementText, AreElements, IsElement, AllFit, Fits, ValueOf, ValuesOf, AsC, ItemsAsC, IsJson,
         TextOf, HasAt, StartsAt;
    var s := Skip(c, p);
    SkippedIsWhite(c, p);
    NothingFits(d);
    NothingIsJson();
    var e: Element;
    var rest: seq<Element> := [];
    if ParseValue(c, s, d).Fail? {
      var x;
      x, k := RepairValue(c, s, d);
      e := CutElement(x, c, p, k);
      OneElement(e);
    } else {
      var x := SoundValue(c, s, d);
      e := ElementStands(x, c, p, d);
      var m := p + |ElementText(e)|;
      if c[m] == COMMA {
        rest, k := RepairItems(c, m + 1, d);
        MoreElements(e, rest, c, p, k);
      } else {
        k := m;
        StartsWhole(c, p, ElementText(e));
        OneElement(e);
      }
    }
    es := [e] + rest;
    AllFitStep(es, d);
    assert es[1..] == rest && es[0] == e;
    JoinElements(e, rest);
  }

  lemma OneElement(e: Element)
    ensures ElementsText([e] + []) == ElementText(e)
  {
  }

  lemma JoinElements(e: Element, rest: seq<Element>)
    requires IsElement(e, false) && AreElements(rest, false)
    ensures AreElements([e] + rest, false)
  {
    assert ([e] + rest)[1..] == rest;
  }

  lemma {:induction false} MoreElements(e: Element, rest: seq<Element>, c: seq<byte>, p: nat, k: nat)
    requires HasAt(c, p, ElementText(e)) && rest != []
    requires var m := p + |ElementText(e)|; m < |c| && c[m] == COMMA && StartsAt(c, m + 1, k, ElementsText(rest))
    ensures StartsAt(c, p, k, ElementsText([e] + rest))
  {
    hide ElementText, StartsAt;
    var m := p + |ElementText(e)|;
    assert c[m..m + 1] == [COMMA];
    HasAtSplit(c, p, ElementText(e), [COMMA]);
    StartsBehind(c, p, k, ElementText(e) + [COMMA], ElementsText(rest));
    assert ([e] + rest)[1..] == rest;
  }

  lemma {:induction false} RepairObject(c: seq<byte>, o: nat, d: nat) returns (x: Syntax, k: nat)
    requires Terminated(c) && o < |c| && c[o] == LBRACE && d <= NESTING_LIMIT && ParseObject(c, o, d).Fail?
    ensures IsJson(x, false) && Fits(x, d) && StartsAt(c, o, k, TextOf(x)) && Reported(c, k, ParseObject(c, o, d).at)
    decreases |c| - o, 0
  {
    hide Skip, ParseMembers, EntriesText, AreEntries, EntriesFit, StartsAt;
    Simple(d);
    x, k := NullWord, o;
    StartsNowhere(c, o, TextOf(x));
    if d < NESTING_LIMIT {
      SkipAgain(c, o + 1);
      R.ParseMembersSkips(c, o + 1, Skip(c, o + 1), d + 1);
      var es;
      es, k := RepairMembers(c, o + 1, d + 1);
      x := ObjectOf([], es);
      ObjectFits(es, d);
      assert HasAt(c, o, [LBRACE]);
      StartsBehind(c, o, k, [LBRACE], EntriesText(es));
      StartsLonger(c, o, k, [LBRACE] + EntriesText(es), [RBRACE]);
    }
  }

  lemma ObjectFits(es: seq<Entry>, d: nat)
    requires es != [] && AreEntries(es, false) && EntriesFit(es, d + 1)
    ensures IsJson(ObjectOf([], es), false) && Fits(ObjectOf([], es), d)
    ensures TextOf(ObjectOf([], es)) == [LBRACE] + EntriesText(es) + [RBRACE]
  {
    hide AreEntries, EntriesText;
  }

  /** A member that is refused can be continued from where it is. */
  lemma {:induction false} RepairMember(c: seq<byte>, p: nat, d: nat) returns (e: Entry, k: nat)
    requires Terminated(c) && p < |c| && d <= NESTING_LIMIT && ParseMember(c, p, d).Fail?
    ensures IsEntry(e, false) && EntryFits(e, d) && StartsAt(c, p, k, EntryText(e)) && Reported(c, k, ParseMember(c, p, d).at)
    decreases |c| - p, 2
  {
    hide Skip, ParseValue, ParseKey, ParseString, StringText, IsText, Paired, White, Fits, TextOf, IsJson, ElementText, IsElement,
         StartsAt, HasAt;
    if ParseKey(c, p).Fail? {
      var before, key, after;
      before, key, after, k := RepairKey(c, p);
      e := Entry(before, key, after, Element([], NullWord, []));
      NothingIsWhite();
      Simple(d);
      NullElement();
      StartsLonger(c, p, k, before + StringText(key) + after, [COLON]);
      StartsLonger(c, p, k, KeyText(e), ElementText(e.element));
    } else {
      var before, key, after, next := SoundKey(c, p);
      SkippedIsWhite(c, next);
      var x;
      x, k := RepairValue(c, Skip(c, next), d);
      var element := CutElement(x, c, next, k);
      e := Entry(before, key, after, element);
      KeyHasAt(e, c, p, next);
      StartsBehind(c, p, k, KeyText(e), ElementText(element));
    }
  }

  lemma NullElement()
    ensures IsElement(Element([], NullWord, []), false)
  {
  }

  lemma KeyHasAt(e: Entry, c: seq<byte>, p: nat, next: nat)
    requires p <= next <= |c| && c[p..next] == e.before + StringText(e.key) + e.after + [COLON]
    ensures HasAt(c, p, KeyText(e)) && p + |KeyText(e)| == next
  {
    hide StringText;
  }

  lemma {:induction false} RepairKey(c: seq<byte>, p: nat) returns (before: seq<byte>, key: Text, after: seq<byte>, k: nat)
    requires Terminated(c) && p < |c| && ParseKey(c, p).Fail?
    ensures White(before) && IsText(key, false) && Paired(key.chars) && White(after)
    ensures StartsAt(c, p, k, before + StringText(key) + after) && Reported(c, k, ParseKey(c, p).at)
  {
    hide Skip, ParseString, StringText, IsText, Paired, White, StartsAt, HasAt;
    var s := Skip(c, p);
    SkippedIsWhite(c, p);
    NothingIsWhite();
    before, after := c[p..s], [];
    SliceHasAt(c, p, s);
    assert p + |before| == s;
    if ParseString(c, s).Fail? {
      assert ParseKey(c, p).at == ParseString(c, s).at;
      key, k := RepairString(c, s);
      hide Reported;
      StartsBehind(c, p, k, before, StringText(key));
      StartsLonger(c, p, k, before + StringText(key), []);
    } else {
      key := SoundString(c, s);
      var a := ParseString(c, s).next;
      SkippedIsWhite(c, a);
      k := Skip(c, a);
      after := c[a..k];
      KeyStarts(before, StringText(key), after, c, p, a, k);
    }
  }

  lemma {:induction false} KeyStarts(before: seq<byte>, key: seq<byte>, after: seq<byte>, c: seq<byte>, p: nat, a: nat, k: nat)
    requires p + |before| + |key| == a <= k < |c| && after == c[a..k]
    requires HasAt(c, p, before) && HasAt(c, p + |before|, key)
    ensures StartsAt(c, p, k, before + key + after)
  {
    hide HasAt, StartsAt;
    SliceHasAt(c, a, k);
    HasAtSplit(c, p, before, key);
    HasAtSplit(c, p, before + key, after);
    StartsWhole(c, p, before + key + after);
  }

  lemma SliceHasAt(c: seq<byte>, i: nat, j: nat)
    requires i <= j <= |c|
    ensures HasAt(c, i, c[i..j])
  {
  }

  lemma {:induction false} RepairMembers(c: seq<byte>, p: nat, d: nat) returns (es: seq<Entry>, k: nat)
    requires Terminated(c) && p < |c| && d <= NESTING_LIMIT && ParseMembers(c, p, d).Fail?
    ensures es != [] && AreEntries(es, false) && EntriesFit(es, d) && StartsAt(c, p, k, EntriesText(es))
    ensures Reported(c, k, ParseMembers(c, p, d).at)
    decreases |c| - p, 3
  {
    hide ParseMember, EntriesText, EntryText, AreEntries, IsEntry, EntriesFit, EntryFits, MembersAsC, MembersOf, AsC, ValueOf, HasAt,
         CString, Decoded, StartsAt;
    NothingFits(d);
    NothingIsJson();
    var e: Entry;
    var rest: seq<Entry> := [];
    if ParseMember(c, p, d).Fail? {
      e, k := RepairMember(c, p, d);
      OneEntry(e);
    } else {
      e := SoundMember(c, p, d);
      var m := p + |EntryText(e)|;
      if c[m] == COMMA {
        rest, k := RepairMembers(c, m + 1, d);
        MoreEntries(e, rest, c, p, k);
      } else {
        k := m;
        StartsWhole(c, p, EntryText(e));
        OneEntry(e);
      }
    }
    es := [e] + rest;
    EntriesFitStep(es, d);
    assert es[1..] == rest && es[0] == e;
    JoinEntries(e, rest);
  }

  lemma OneEntry(e: Entry)
    ensures EntriesText([e] + []) == EntryText(e)
  {
  }

  lemma JoinEntries(e: Entry, rest: seq<Entry>)
    requires IsEntry(e, false) && AreEntries(rest, false)
    ensures AreEntries([e] + rest, false)
  {
    assert ([e] + rest)[1..] == rest;
  }

  lemma {:induction false} MoreEntries(e: Entry, rest: seq<Entry>, c: seq<byte>, p: nat, k: nat)
    requires HasAt(c, p, EntryText(e)) && rest != []
    requires var m := p + |EntryText(e)|; m < |c| && c[m] == COMMA && StartsAt(c, m + 1, k, EntriesText(rest))
    ensures StartsAt(c, p, k, EntriesText([e] + rest))
  {
    hide EntryText, StartsAt;
    var m := p + |EntryText(e)|;
    assert c[m..m + 1] == [COMMA];
    HasAtSplit(c, p, EntryText(e), [COMMA]);
    StartsBehind(c, p, k, EntryText(e) + [COMMA], EntriesText(rest));
    assert ([e] + rest)[1..] == rest;
  }

  // ---------- whole texts ----------

  /**
   Where the parser reports an error: the text in front of the reported position is the start of
   a document that it accepts. Where the name of a member is missing, the position is one byte
   further, and that byte is not part of it.
   */
  lemma {:induction false} ErrorPosition(text: seq<byte>, requireNullTerminated: bool) returns (t: Document, k: nat)
    requires ParseText(text, requireNullTerminated).Fail?
    ensures k <= |text| && IsDocument(t, DocumentText(t)) && text[..k] <= DocumentText(t)
    ensures Reported(text + [NUL], k, ParseText(text, requireNullTerminated).at)
    ensures ParseText(DocumentText(t), true).Ok?
  {
    hide Skip, ParseValue, ElementText, IsElement, Fits, ValueOf, AsC, HasBom, StartsAt, TextOf, IsJson;
    var c := text + [NUL];
    var p := if HasBom(c) then 3 else 0;
    BomInText(text);
    SkippedIsWhite(c, p);
    var s := Skip(c, p);
    var e: Element;
    if ParseValue(c, s, 0).Fail? {
      var x;
      x, k := RepairValue(c, s, 0);
      e := CutElement(x, c, p, k);
    } else {
      var x := SoundValue(c, s, 0);
      e := ElementStands(x, c, p, 0);
      k := p + |ElementText(e)|;
      StartsWhole(c, p, ElementText(e));
    }
    t := Document(HasBom(c), e);
    StartsOrder(c, p, k, ElementText(e));
    DocumentStarts(t, text, p, k);
    ParseLoose(t, true);
  }

  lemma DocumentStarts(t: Document, text: seq<byte>, p: nat, k: nat)
    requires p <= k && StartsAt(text + [NUL], p, k, ElementText(t.element)) && p == |BomText(t.bom)|
    requires p <= |text| && text[..p] == BomText(t.bom)
    ensures k <= |text| && text[..k] <= DocumentText(t)
  {
    hide ElementText;
    var c := text + [NUL];
    assert text[..k] == text[..p] + c[p..k];
    assert DocumentText(t)[..k] == BomText(t.bom) + ElementText(t.element)[..k - p];
  }
}
