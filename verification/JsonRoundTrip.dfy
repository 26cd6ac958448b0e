/** Parsing what the renderer writes gives back the same value. */
module JsonRoundTrip {
  import opened Bytes
  import opened JsonValue
  import opened JsonRender
  import opened JsonSyntax

  // ---------- white space ----------

  lemma SkipNone(c: seq<byte>, o: nat)
    requires o < |c| && c[o] > 32
    ensures Skip(c, o) == o
  {
  }

  lemma {:induction false} SkipWhite(c: seq<byte>, o: nat, ws: seq<byte>)
    requires HasAt(c, o, ws) && White(ws)
    requires o + |ws| < |c| && c[o + |ws|] > 32
    ensures Skip(c, o) == o + |ws|
  {
    SpacesEndAt(c, o, o + |ws|, ws);
  }

  lemma {:induction false} SpacesEndAt(c: seq<byte>, o: nat, e: nat, ws: seq<byte>)
    requires o <= e < |c| && c[e] > 32
    requires White(ws) && |ws| == e - o && c[o..e] == ws
    ensures SpacesEnd(c, o) == e
    decreases e - o
  {
    if o < e {
      assert c[o] == ws[0];
      assert c[o + 1..e] == ws[1..];
      SpacesEndAt(c, o + 1, e, ws[1..]);
    }
  }

  // ---------- numbers ----------

  lemma {:induction false} DigitsLength(n: nat, k: nat, bound: nat)
    requires bound == PowNat(k) && n < bound && k > 0
    ensures |Digits(n)| <= k
    decreases k
  {
    if n >= 10 {
      assert k > 1;
      DigitsLength(n / 10, k - 1, PowNat(k - 1));
    }
  }

  function PowNat(k: nat): nat {
    if k == 0 then 1 else 10 * PowNat(k - 1)
  }

  lemma DecimalFits(n: int)
    requires -DECIMAL_LIMIT < n < DECIMAL_LIMIT
    ensures |Decimal(n)| <= 16
  {
    assert PowNat(5) == 100000;
    assert PowNat(10) == 10000000000;
    assert PowNat(15) == DECIMAL_LIMIT;
    DigitsLength(if n < 0 then -n else n, 15, DECIMAL_LIMIT);
  }

  lemma {:induction false} DigitsEndAt(s: seq<byte>, i: nat, e: nat)
    requires i <= e <= |s|
    requires forall k :: i <= k < e ==> IsDigit(s[k])
    requires e < |s| ==> !IsDigit(s[e])
    ensures DigitsEnd(s, i) == e
    decreases e - i
  {
    if i < e {
      DigitsEndAt(s, i + 1, e);
    }
  }

  lemma {:induction false} DigitsValueOfDigits(pre: seq<byte>, n: nat, post: seq<byte>)
    ensures DigitsValue(pre + Digits(n) + post, |pre|, |pre| + |Digits(n)|) == n
    decreases n
  {
    var s := pre + Digits(n) + post;
    if n < 10 {
      assert s[|pre|] == 48 + n;
      assert DigitsValue(s, |pre|, |pre|) == 0;
    } else {
      assert s == pre + Digits(n / 10) + ([48 + n % 10] + post);
      DigitsValueOfDigits(pre, n / 10, [48 + n % 10] + post);
      assert s[|pre| + |Digits(n)| - 1] == 48 + n % 10;
    }
  }

  lemma StrtodOfDecimal(n: int)
    ensures Strtod(Decimal(n)) == Some((n as real, |Decimal(n)|))
  {
    hide Digits, DigitsEnd, DigitsValue, Pow10;
    var m := if n < 0 then -n else n;
    var pre: seq<byte> := if n < 0 then [MINUS] else [];
    var s := pre + Digits(m);
    assert Decimal(n) == s;
    forall k | |pre| <= k < |s| ensures IsDigit(s[k]) {
      assert s[k] == Digits(m)[k - |pre|];
    }
    assert n >= 0 ==> s[0] == Digits(m)[0];
    DigitsEndAt(s, |pre|, |s|);
    assert s == pre + Digits(m) + [];
    DigitsValueOfDigits(pre, m, []);
    PowZero();
    assert ExponentEnd(s, |s|) == |s|;
  }

  lemma PowZero()
    ensures Pow10(0) == 1.0
  {
  }

  lemma {:induction false} NumericRunAt(c: seq<byte>, o: nat, n: nat, room: nat)
    requires o + n < |c| && n <= room
    requires forall i :: o <= i < o + n ==> IsNumeric(c[i])
    requires !IsNumeric(c[o + n])
    ensures NumericRun(c, o, room) == n
    decreases n
  {
    if n > 0 {
      NumericRunAt(c, o + 1, n - 1, room - 1);
    }
  }

  lemma ParseDecimal(c: seq<byte>, o: nat, n: int)
    requires -DECIMAL_LIMIT < n < DECIMAL_LIMIT
    requires HasAt(c, o, Decimal(n))
    requires o + |Decimal(n)| < |c| && !IsNumeric(c[o + |Decimal(n)|])
    ensures ParseNumber(c, o) == Ok(n as real, o + |Decimal(n)|)
  {
    hide Digits, Strtod, NumericRun;
    var s := Decimal(n);
    DecimalFits(n);
    forall i | o <= i < o + |s| ensures IsNumeric(c[i]) {
      HasAtIndex(c, o, s, i - o);
    }
    NumericRunAt(c, o, |s|, NUMBER_ROOM);
    StrtodOfDecimal(n);
  }

  // ---------- strings ----------

  lemma HexRoundTrip(d: nat)
    requires d < 16
    ensures HexValue(HexDigit(d)) == Some(d) && HexDigit(d) != QUOTE && HexDigit(d) != BACKSLASH
  {
  }

  ghost predicate PlainEscape(x: seq<byte>, b: byte) {
    |x| == 1 && x[0] == b && b != BACKSLASH && b != QUOTE
  }

  ghost predicate ShortEscape(x: seq<byte>, b: byte) {
    |x| == 2 && x[0] == BACKSLASH && x[1] != 117 && SimpleEscape(x[1]) == Some(b)
  }

  ghost predicate LongEscape(x: seq<byte>, b: byte) {
    && b < 32 && |x| == 6 && x[0] == BACKSLASH && x[1] == 117 && x[2] == 48 && x[3] == 48
    && x[4] == HexDigit(b / 16) && x[5] == HexDigit(b % 16)
  }

  lemma EscapeShape(b: byte)
    requires b != NUL
    ensures PlainEscape(Escape(b), b) || ShortEscape(Escape(b), b) || LongEscape(Escape(b), b)
  {
  }

  lemma Hex4OfByte(c: seq<byte>, p: nat, b: byte)
    requires p + 4 <= |c| && b < 32
    requires c[p] == 48 && c[p + 1] == 48 && c[p + 2] == HexDigit(b / 16) && c[p + 3] == HexDigit(b % 16)
    ensures Hex4(c, p) == b
  {
    hide HexDigit, HexValue;
    HexRoundTrip(0);
    HexRoundTrip(b / 16);
    HexRoundTrip(b % 16);
    assert HexDigit(0) == 48 by { ZeroDigit(); }
  }

  lemma ZeroDigit()
    ensures HexDigit(0) == 48
  {
  }

  /** The second pass reads one rendered byte as one piece. */
  lemma PieceOfEscape(c: seq<byte>, p: nat, e: nat, b: byte)
    requires b != NUL && HasAt(c, p, Escape(b)) && p + |Escape(b)| <= e < |c|
    ensures PieceAt(c, p, e) == Piece(|Escape(b)|, [b])
  {
    hide Escape, HasAt, HexDigit, Hex4;
    var x := Escape(b);
    EscapeShape(b);
    HasAtIndex(c, p, x, 0);
    if ShortEscape(x, b) {
      HasAtIndex(c, p, x, 1);
    } else if LongEscape(x, b) {
      HasAtIndex(c, p, x, 1);
      HasAtIndex(c, p, x, 2);
      HasAtIndex(c, p, x, 3);
      HasAtIndex(c, p, x, 4);
      HasAtIndex(c, p, x, 5);
      Hex4OfByte(c, p + 2, b);
    }
  }

  lemma {:induction false} UnescapeOfEscapeAll(c: seq<byte>, p: nat, e: nat, s: seq<byte>)
    requires NulFree(s) && HasAt(c, p, EscapeAll(s)) && p + |EscapeAll(s)| == e < |c|
    ensures Unescape(c, p, e) == Ok(s, e)
    decreases s
  {
    hide HasAt, Escape, PieceAt;
    if s != [] {
      HasAtSplit(c, p, Escape(s[0]), EscapeAll(s[1..]));
      PieceOfEscape(c, p, e, s[0]);
      UnescapeOfEscapeAll(c, p + |Escape(s[0])|, e, s[1..]);
      assert s == [s[0]] + s[1..];
    }
  }

  lemma StringEndPlain(c: seq<byte>, p: nat)
    requires p < |c| && c[p] != QUOTE && c[p] != BACKSLASH
    ensures StringEnd(c, p) == StringEnd(c, p + 1)
  {
  }

  lemma StringEndEscape(c: seq<byte>, p: nat)
    requires p + 1 < |c| && c[p] == BACKSLASH
    ensures StringEnd(c, p) == StringEnd(c, p + 2)
  {
  }

  lemma StringEndStep(c: seq<byte>, p: nat, b: byte)
    requires b != NUL && HasAt(c, p, Escape(b))
    ensures p + |Escape(b)| <= |c|
    ensures StringEnd(c, p) == StringEnd(c, p + |Escape(b)|)
  {
    hide Escape, HasAt, HexDigit, StringEnd;
    var x := Escape(b);
    EscapeShape(b);
    HasAtBound(c, p, x);
    HasAtIndex(c, p, x, 0);
    if PlainEscape(x, b) {
      StringEndPlain(c, p);
    } else {
      StringEndEscape(c, p);
      if LongEscape(x, b) {
        HexRoundTrip(b / 16);
        HexRoundTrip(b % 16);
        HasAtIndex(c, p, x, 2);
        HasAtIndex(c, p, x, 3);
        HasAtIndex(c, p, x, 4);
        HasAtIndex(c, p, x, 5);
        StringEndPlain(c, p + 2);
        StringEndPlain(c, p + 3);
        StringEndPlain(c, p + 4);
        StringEndPlain(c, p + 5);
      }
    }
  }

  lemma {:induction false} StringEndOfEscapeAll(c: seq<byte>, p: nat, e: nat, s: seq<byte>)
    requires NulFree(s) && HasAt(c, p, EscapeAll(s)) && p + |EscapeAll(s)| == e < |c| && c[e] == QUOTE
    ensures StringEnd(c, p) == Some(e)
    decreases s
  {
    hide HasAt, Escape;
    if s != [] {
      HasAtSplit(c, p, Escape(s[0]), EscapeAll(s[1..]));
      StringEndStep(c, p, s[0]);
      StringEndOfEscapeAll(c, p + |Escape(s[0])|, e, s[1..]);
    }
  }

  /** String round trip: quoting then parsing restores every C string. */
  lemma ParseQuoted(c: seq<byte>, o: nat, s: seq<byte>)
    requires NulFree(s) && HasAt(c, o, Quoted(s))
    ensures ParseString(c, o) == Ok(s, o + |Quoted(s)|)
  {
    hide EscapeAll, Unescape, StringEnd;
    var body := EscapeAll(s);
    HasAtSplit(c, o, [QUOTE] + body, [QUOTE]);
    HasAtSplit(c, o, [QUOTE], body);
    HasAtIndex(c, o, [QUOTE], 0);
    var e := o + 1 + |body|;
    HasAtIndex(c, e, [QUOTE], 0);
    StringEndOfEscapeAll(c, o + 1, e, s);
    UnescapeOfEscapeAll(c, o + 1, e, s);
    CStringOfNulFree(s);
  }

  // ---------- values ----------

  /** A rendered value starts with one of the bytes the parser dispatches on. */
  lemma FirstByte(t: Json, fmt: bool, depth: nat)
    ensures var b := Render(t, fmt, depth)[0]; b > 32 && b != RBRACKET && b != RBRACE
  {
    hide RenderItems, RenderMembers, EscapeAll;
    match t
    case Number(v) =>
      assert Decimal(v.Floor)[0] == MINUS || IsDigit(Decimal(v.Floor)[0]);
    case Array(items) =>
      assert Render(t, fmt, depth)[0] == LBRACKET;
    case Object(members) =>
      assert Render(t, fmt, depth)[0] == ObjectOpen(fmt)[0];
    case _ =>
  }

  lemma LiteralsDiffer(c: seq<byte>, o: nat)
    requires o < |c|
    ensures HasAt(c, o, NULL_TEXT) ==> c[o] == 110
    ensures HasAt(c, o, FALSE_TEXT) ==> c[o] == 102
    ensures HasAt(c, o, TRUE_TEXT) ==> c[o] == 116
  {
    if HasAt(c, o, NULL_TEXT) { assert c[o] == c[o..o + 4][0]; }
    if HasAt(c, o, FALSE_TEXT) { assert c[o] == c[o..o + 5][0]; }
    if HasAt(c, o, TRUE_TEXT) { assert c[o] == c[o..o + 4][0]; }
  }

  /** Text `s` stands at `o`, and the byte after it cannot continue a number. */
  ghost predicate Stands(s: seq<byte>, c: seq<byte>, o: nat) {
    Terminated(c) && HasAt(c, o, s) && o + |s| < |c| && !IsNumeric(c[o + |s|])
  }

  /**
   The round trip, inside any terminated text: where a rendering stands, followed by
   a byte that cannot continue a number, the parser reads exactly the rendered value.
   */
  lemma {:induction false} ParseRendered(t: Json, fmt: bool, rd: nat, c: seq<byte>, o: nat, d: nat)
    requires Printable(t) && Stands(Render(t, fmt, rd), c, o)
    requires d + Height(t) <= NESTING_LIMIT
    ensures ParseValue(c, o, d) == Ok(t, o + |Render(t, fmt, rd)|)
    decreases t, 1
  {
    hide RenderItems, RenderMembers, EscapeAll, ParseArray, ParseObject, ParseString, ParseNumber, Digits,
         ItemsHeight, MembersHeight;
    var r := Render(t, fmt, rd);
    HasAtIndex(c, o, r, 0);
    LiteralsDiffer(c, o);
    match t
    case Null =>
    case False =>
    case True =>
    case String(s) => ParseQuoted(c, o, s);
    case Number(v) =>
      ParseDecimal(c, o, v.Floor);
      assert r[0] == MINUS || IsDigit(r[0]);
    case Array(items) => ParseRenderedArray(items, fmt, rd, c, o, d);
    case Object(members) => ParseRenderedObject(members, fmt, rd, c, o, d);
  }

  lemma {:induction false} ParseRenderedArray(items: seq<Json>, fmt: bool, rd: nat, c: seq<byte>, o: nat, d: nat)
    requires PrintableItems(items) && Stands(Render(Array(items), fmt, rd), c, o)
    requires d + 1 + ItemsHeight(items) <= NESTING_LIMIT
    ensures c[o] == LBRACKET
    ensures ParseArray(c, o, d) == Ok(Array(items), o + |Render(Array(items), fmt, rd)|)
    decreases items, 3
  {
    hide HasAt, ParseItems, ItemsHeight, PrintableItems, RenderItems, Skip;
    var body := RenderItems(items, fmt, rd + 1);
    Bracketed(LBRACKET, body, RBRACKET, c, o);
    if items == [] { NoItems(fmt, rd + 1); }
    if items != [] {
      ItemsStart(items, fmt, rd + 1);
      HasAtIndex(c, o + 1, body, 0);
      assert [] + body == body;
      ParseRenderedItems(items, fmt, rd + 1, [], c, o + 1, d + 1);
    }
    SkipNone(c, o + 1);
  }

  lemma NoItems(fmt: bool, rd: nat)
    ensures RenderItems([], fmt, rd) == []
  {
  }

  lemma ItemsStart(items: seq<Json>, fmt: bool, rd: nat)
    requires items != []
    ensures RenderItems(items, fmt, rd) != []
    ensures RenderItems(items, fmt, rd)[0] > 32 && RenderItems(items, fmt, rd)[0] != RBRACKET
  {
    hide Render;
    FirstByte(items[0], fmt, rd);
  }

  lemma {:induction false} ParseRenderedItems(items: seq<Json>, fmt: bool, rd: nat, ws: seq<byte>,
                                              c: seq<byte>, p: nat, d: nat)
    requires Terminated(c) && items != [] && PrintableItems(items) && White(ws)
    requires d + ItemsHeight(items) <= NESTING_LIMIT
    requires HasAt(c, p, ws + RenderItems(items, fmt, rd))
    requires p + |ws + RenderItems(items, fmt, rd)| < |c|
    requires c[p + |ws + RenderItems(items, fmt, rd)|] == RBRACKET
    ensures ParseItems(c, p, d) == Ok(items, p + |ws + RenderItems(items, fmt, rd)| + 1)
    decreases items, 2
  {
    hide HasAt, Render, RenderItems, ParseValue, ParseItems, Skip, Printable, PrintableItems, Height, ItemsHeight, Terminated, White;
    ItemsFacts(items, fmt, rd);
    var first := Render(items[0], fmt, rd);
    HasAtSplit(c, p, ws, RenderItems(items, fmt, rd));
    var s := p + |ws|;
    var next := s + |first|;
    if |items| == 1 {
      ParseItemAfterWhite(items[0], fmt, rd, ws, c, p, d);
      SkipNone(c, next);
      assert items == [items[0]];
      LastItem(c, p, d, items[0], next);
    } else {
      var tail := RenderItems(items[1..], fmt, rd);
      var gap: seq<byte> := ItemSeparator(fmt)[1..];
      assert RenderItems(items, fmt, rd) == first + ([COMMA] + (gap + tail));
      SeparatorWhite(fmt);
      HasAtSplit(c, s, first, [COMMA] + (gap + tail));
      HasAtSplit(c, next, [COMMA], gap + tail);
      HasAtIndex(c, next, [COMMA], 0);
      ParseItemAfterWhite(items[0], fmt, rd, ws, c, p, d);
      SkipNone(c, next);
      ParseRenderedItems(items[1..], fmt, rd, gap, c, next + 1, d);
      assert items == [items[0]] + items[1..];
      OneMoreItem(c, p, d, items[0], next, next);
    }
  }

  lemma ItemsFacts(items: seq<Json>, fmt: bool, rd: nat)
    requires items != [] && PrintableItems(items)
    ensures Printable(items[0]) && PrintableItems(items[1..])
    ensures Height(items[0]) <= ItemsHeight(items) && ItemsHeight(items[1..]) <= ItemsHeight(items)
    ensures RenderItems(items, fmt, rd)
            == if |items| == 1 then Render(items[0], fmt, rd)
               else Render(items[0], fmt, rd) + ItemSeparator(fmt) + RenderItems(items[1..], fmt, rd)
  {
    hide Render, Printable, Height;
  }

  lemma SeparatorWhite(fmt: bool)
    ensures White(ItemSeparator(fmt)[1..])
  {
  }

  lemma {:induction false} LastItem(c: seq<byte>, p: nat, d: nat, v: Json, next: nat)
    requires Terminated(c) && p < |c| && Skip(c, p) < |c| && next < |c|
    requires ParseValue(c, Skip(c, p), d) == Ok(v, next) && c[Skip(c, next)] == RBRACKET
    ensures ParseItems(c, p, d) == Ok([v], Skip(c, next) + 1)
  {
    hide ParseValue, Skip;
  }

  lemma {:induction false} OneMoreItem(c: seq<byte>, p: nat, d: nat, v: Json, next: nat, m: nat)
    requires Terminated(c) && p < |c| && Skip(c, p) < |c| && next < |c| && m + 1 < |c|
    requires ParseValue(c, Skip(c, p), d) == Ok(v, next)
    requires Skip(c, next) == m && c[m] == COMMA && ParseItems(c, m + 1, d).Ok?
    ensures var r := ParseItems(c, m + 1, d); ParseItems(c, p, d) == Ok([v] + r.value, r.next)
  {
    hide ParseValue, Skip;
  }

  lemma {:induction false} ParseItemAfterWhite(t: Json, fmt: bool, rd: nat, ws: seq<byte>, c: seq<byte>, p: nat, d: nat)
    requires Terminated(c) && Printable(t) && White(ws)
    requires d + Height(t) <= NESTING_LIMIT
    requires HasAt(c, p, ws) && HasAt(c, p + |ws|, Render(t, fmt, rd))
    requires p + |ws| + |Render(t, fmt, rd)| < |c| && !IsNumeric(c[p + |ws| + |Render(t, fmt, rd)|])
    ensures Skip(c, p) == p + |ws|
    ensures ParseValue(c, p + |ws|, d) == Ok(t, p + |ws| + |Render(t, fmt, rd)|)
    decreases t, 2
  {
    hide HasAt, Render, ParseValue, Skip, Printable, Height;
    FirstByte(t, fmt, rd);
    HasAtIndex(c, p + |ws|, Render(t, fmt, rd), 0);
    SkipWhite(c, p, ws);
    ParseRendered(t, fmt, rd, c, p + |ws|, d);
  }

  lemma {:induction false} ParseRenderedObject(members: seq<Member>, fmt: bool, rd: nat, c: seq<byte>, o: nat, d: nat)
    requires PrintableMembers(members) && Stands(Render(Object(members), fmt, rd), c, o)
    requires d + 1 + MembersHeight(members) <= NESTING_LIMIT
    ensures c[o] == LBRACE
    ensures ParseObject(c, o, d) == Ok(Object(members), o + |Render(Object(members), fmt, rd)|)
    decreases members, 4
  {
    hide HasAt, ParseMembers, MembersHeight, PrintableMembers, RenderMembers, Skip, Tabs, ObjectOpen, White, ParseObject,
         Terminated, Render, Indent, IsNumeric, Stands, Height;
    var gap := if fmt then [NEWLINE] else [];
    var body := RenderMembers(members, fmt, rd + 1);
    var close := Indent(fmt, rd);
    ObjectText(members, fmt, rd, gap, body, close);
    OpensAndCloses(Render(Object(members), fmt, rd), gap + body + close, c, o);
    IndentWhite(fmt, rd);
    GapWhite(gap, close);
    if members == [] {
      NoMembers(fmt, rd + 1);
      assert gap + body + close == gap + close;
      RenderedEmptyObject(gap + close, c, o, d);
    } else {
      RenderedFullObject(members, fmt, rd + 1, gap, close, c, o, d);
    }
  }

  lemma OpensAndCloses(text: seq<byte>, inner: seq<byte>, c: seq<byte>, o: nat)
    requires Stands(text, c, o) && text == [LBRACE] + inner + [RBRACE]
    ensures Terminated(c) && c[o] == LBRACE && HasAt(c, o + 1, inner) && o + 1 + |inner| < |c|
    ensures c[o + 1 + |inner|] == RBRACE && |text| == |inner| + 2
  {
    hide HasAt, Terminated, IsNumeric;
    Bracketed(LBRACE, inner, RBRACE, c, o);
  }

  lemma {:induction false} RenderedFullObject(members: seq<Member>, fmt: bool, rd: nat, gap: seq<byte>, close: seq<byte>,
                                              c: seq<byte>, o: nat, d: nat)
    requires Terminated(c) && members != [] && PrintableMembers(members) && White(gap) && White(close)
    requires d + 1 + MembersHeight(members) <= NESTING_LIMIT && o + 1 < |c| && c[o] == LBRACE
    requires HasAt(c, o + 1, gap + RenderMembers(members, fmt, rd) + close)
    requires o + 1 + |gap + RenderMembers(members, fmt, rd) + close| < |c|
    requires c[o + 1 + |gap + RenderMembers(members, fmt, rd) + close|] == RBRACE
    ensures ParseObject(c, o, d) == Ok(Object(members), o + 1 + |gap + RenderMembers(members, fmt, rd) + close| + 1)
    decreases members, 3
  {
    hide HasAt, ParseMembers, ParseObject, MembersHeight, PrintableMembers, RenderMembers, Skip, White, Terminated;
    var first := ParseRenderedBody(members, fmt, rd, gap, close, c, o + 1, d + 1);
    FullObject(c, o, d, first);
  }

  lemma {:induction false} RenderedEmptyObject(ws: seq<byte>, c: seq<byte>, o: nat, d: nat)
    requires Terminated(c) && White(ws) && o + 1 + |ws| < |c| && c[o] == LBRACE && d < NESTING_LIMIT
    requires HasAt(c, o + 1, ws) && c[o + 1 + |ws|] == RBRACE
    ensures ParseObject(c, o, d) == Ok(Object([]), o + 1 + |ws| + 1)
  {
    hide HasAt, Skip, White, ParseObject, Terminated;
    SkipWhite(c, o + 1, ws);
    EmptyObject(c, o, d);
  }

  lemma {:induction false} EmptyObject(c: seq<byte>, o: nat, d: nat)
    requires Terminated(c) && o + 1 < |c| && c[o] == LBRACE && d < NESTING_LIMIT && c[Skip(c, o + 1)] == RBRACE
    ensures ParseObject(c, o, d) == Ok(Object([]), Skip(c, o + 1) + 1)
  {
    hide Skip, ParseMembers;
  }

  lemma {:induction false} FullObject(c: seq<byte>, o: nat, d: nat, first: nat)
    requires Terminated(c) && o + 1 < |c| && c[o] == LBRACE && d < NESTING_LIMIT
    requires Skip(c, o + 1) == first && first < |c| && c[first] != RBRACE && ParseMembers(c, first, d + 1).Ok?
    ensures var r := ParseMembers(c, first, d + 1); ParseObject(c, o, d) == Ok(Object(r.value), r.next)
  {
    hide Skip, ParseMembers;
  }

  lemma ObjectText(members: seq<Member>, fmt: bool, rd: nat, gap: seq<byte>, body: seq<byte>, close: seq<byte>)
    requires gap == if fmt then [NEWLINE] else []
    requires body == RenderMembers(members, fmt, rd + 1) && close == Indent(fmt, rd)
    ensures Render(Object(members), fmt, rd) == [LBRACE] + (gap + body + close) + [RBRACE]
  {
    hide RenderMembers, Indent;
    assert ObjectOpen(fmt) == [LBRACE] + gap;
  }

  lemma Bracketed(open: byte, inner: seq<byte>, close: byte, c: seq<byte>, o: nat)
    requires HasAt(c, o, [open] + inner + [close])
    ensures HasAt(c, o, [open]) && c[o] == open && HasAt(c, o + 1, inner) && o + 1 + |inner| < |c| && c[o + 1 + |inner|] == close
  {
    hide HasAt;
    HasAtSplit(c, o, [open] + inner, [close]);
    HasAtSplit(c, o, [open], inner);
    HasAtIndex(c, o, [open], 0);
    HasAtIndex(c, o + 1 + |inner|, [close], 0);
    HasAtBound(c, o + 1 + |inner|, [close]);
  }

  lemma GapWhite(gap: seq<byte>, close: seq<byte>)
    requires (gap == [] || gap == [NEWLINE]) && White(close)
    ensures White(gap) && White(gap + close)
  {
  }

  lemma IndentWhite(fmt: bool, rd: nat)
    ensures White(Indent(fmt, rd))
  {
  }

  /** The parser looks past the white space after `{` once before its member loop looks again. */
  lemma {:induction false} ParseRenderedBody(members: seq<Member>, fmt: bool, rd: nat, gap: seq<byte>, close: seq<byte>,
                                             c: seq<byte>, p: nat, d: nat)
    returns (first: nat)
    requires Terminated(c) && members != [] && PrintableMembers(members) && White(gap) && White(close)
    requires d + MembersHeight(members) <= NESTING_LIMIT
    requires HasAt(c, p, gap + RenderMembers(members, fmt, rd) + close)
    requires p + |gap + RenderMembers(members, fmt, rd) + close| < |c|
    requires c[p + |gap + RenderMembers(members, fmt, rd) + close|] == RBRACE
    ensures p <= first < |c| && Skip(c, p) == first && c[first] == QUOTE
    ensures ParseMembers(c, first, d) == Ok(members, p + |gap + RenderMembers(members, fmt, rd) + close| + 1)
    decreases members, 2
  {
    hide HasAt, ParseMembers, MembersHeight, PrintableMembers, RenderMembers, Skip;
    var body := RenderMembers(members, fmt, rd);
    var indent := MembersStart(members, fmt, rd);
    var tail := body[|indent|..] + close;
    assert gap + body + close == (gap + indent) + tail;
    HasAtSplit(c, p, gap + indent, tail);
    first := p + |gap + indent|;
    HasAtIndex(c, first, tail, 0);
    SkipWhite(c, p, gap + indent);
    SkipNone(c, first);
    ParseRenderedMembers(members, fmt, rd, gap, close, c, p, d);
    ParseMembersSkips(c, p, first, d);
  }

  lemma NoMembers(fmt: bool, rd: nat)
    ensures RenderMembers([], fmt, rd) == []
  {
  }

  lemma MembersStart(members: seq<Member>, fmt: bool, rd: nat) returns (indent: seq<byte>)
    requires members != []
    ensures var body := RenderMembers(members, fmt, rd);
            indent < body && body[|indent|] == QUOTE && White(indent)
  {
    hide Render, MemberEnd, KeySeparator;
    indent := Indent(fmt, rd);
    var last := |members| == 1;
    assert indent < RenderMember(members[0], fmt, rd, last);
    assert RenderMember(members[0], fmt, rd, last)[|indent|] == QUOTE;
  }

  /** Starting the member loop before or after leading white space makes no difference. */
  lemma ParseMembersSkips(c: seq<byte>, q: nat, first: nat, d: nat)
    requires Terminated(c) && q <= first < |c| && Skip(c, q) == first && Skip(c, first) == first
    ensures ParseMembers(c, first, d) == ParseMembers(c, q, d)
  {
    hide ParseValue, ParseString, Skip;
    assert ParseKey(c, q) == ParseKey(c, first);
  }

  lemma {:induction false} ParseRenderedMembers(members: seq<Member>, fmt: bool, rd: nat,
                                                ws: seq<byte>, close: seq<byte>, c: seq<byte>, p: nat, d: nat)
    requires Terminated(c) && members != [] && PrintableMembers(members) && White(ws) && White(close)
    requires d + MembersHeight(members) <= NESTING_LIMIT
    requires HasAt(c, p, ws + RenderMembers(members, fmt, rd) + close)
    requires p + |ws + RenderMembers(members, fmt, rd) + close| < |c|
    requires c[p + |ws + RenderMembers(members, fmt, rd) + close|] == RBRACE
    ensures ParseMembers(c, p, d) == Ok(members, p + |ws + RenderMembers(members, fmt, rd) + close| + 1)
    decreases members, 1
  {
    hide HasAt, RenderMember, RenderMembers, ParseValue, ParseKey, Skip, Printable, Height, Terminated, NulFree, MemberEnd, White, MembersHeight,
         PrintableMembers, ParseMembers;
    MembersFacts(members);
    var m, last := members[0], |members| == 1;
    var end := MemberEnd(fmt, last);
    var head := RenderMember(m, fmt, rd, last);
    var rest := RenderMembers(members[1..], fmt, rd);
    MembersText(members, fmt, rd, ws, close);
    HasAtSplit(c, p, ws, head + (rest + close));
    HasAtSplit(c, p + |ws|, head, rest + close);
    EndShape(fmt, last);
    if last {
      assert rest + close == close;
      WhiteStart(close);
      if close != [] { HasAtIndex(c, p + |ws| + |head|, close, 0); }
    }
    var start := ParseRenderedMember(m, fmt, rd, last, ws, c, p, d);
    var next := p + |ws| + |head| - |end|;
    if last {
      HasAtSplit(c, next, end, close);
      AfterLastMember(c, p, d, m, start, next, end, close);
      assert members == [m];
    } else {
      AfterMember(c, next, end, rest + close);
      assert end[1..] + (rest + close) == end[1..] + rest + close;
      ParseRenderedMembers(members[1..], fmt, rd, end[1..], close, c, next + 1, d);
      assert members == [m] + members[1..];
      OneMoreMember(c, p, d, m.key, start, m.value, next, next);
    }
  }

  lemma {:induction false} AfterMember(c: seq<byte>, next: nat, end: seq<byte>, more: seq<byte>)
    requires Terminated(c) && HasAt(c, next, end) && HasAt(c, next + |end|, more) && end != [] && end == [COMMA] + end[1..]
    ensures next < |c| && Skip(c, next) == next && c[next] == COMMA && HasAt(c, next + 1, end[1..] + more)
  {
    hide HasAt, Skip;
    HasAtSplit(c, next, [COMMA], end[1..]);
    HasAtIndex(c, next, [COMMA], 0);
    HasAtBound(c, next, end);
    SkipNone(c, next);
    HasAtSplit(c, next + 1, end[1..], more);
  }

  lemma {:induction false} AfterLastMember(c: seq<byte>, p: nat, d: nat, m: Member, start: nat, next: nat,
                                          end: seq<byte>, close: seq<byte>)
    requires Terminated(c) && p < |c| && start < |c| && next < |c| && White(end) && White(close)
    requires ParseKey(c, p) == Ok(m.key, start) && ParseValue(c, start, d) == Ok(m.value, next)
    requires HasAt(c, next, end + close) && next + |end + close| < |c| && c[next + |end + close|] == RBRACE
    ensures ParseMembers(c, p, d) == Ok([m], next + |end + close| + 1)
  {
    hide HasAt, ParseMembers, ParseValue, ParseKey, Skip, White, Terminated;
    WhiteConcat(end, close);
    SkipWhite(c, next, end + close);
    LastMember(c, p, d, m.key, start, m.value, next);
  }

  lemma {:induction false} LastMember(c: seq<byte>, p: nat, d: nat, key: seq<byte>, start: nat, v: Json, next: nat)
    requires Terminated(c) && p < |c| && start < |c| && next < |c|
    requires ParseKey(c, p) == Ok(key, start) && ParseValue(c, start, d) == Ok(v, next)
    requires c[Skip(c, next)] == RBRACE
    ensures ParseMembers(c, p, d) == Ok([Member(key, v)], Skip(c, next) + 1)
  {
    hide ParseKey, ParseValue, Skip;
  }

  lemma {:induction false} OneMoreMember(c: seq<byte>, p: nat, d: nat, key: seq<byte>, start: nat, v: Json, next: nat, m: nat)
    requires Terminated(c) && p < |c| && start < |c| && next < |c| && m + 1 < |c|
    requires ParseKey(c, p) == Ok(key, start) && ParseValue(c, start, d) == Ok(v, next)
    requires Skip(c, next) == m && c[m] == COMMA && ParseMembers(c, m + 1, d).Ok?
    ensures var r := ParseMembers(c, m + 1, d); ParseMembers(c, p, d) == Ok([Member(key, v)] + r.value, r.next)
  {
    hide ParseKey, ParseValue, Skip;
  }

  lemma MembersText(members: seq<Member>, fmt: bool, rd: nat, ws: seq<byte>, close: seq<byte>)
    requires members != []
    ensures var head := RenderMember(members[0], fmt, rd, |members| == 1);
            var rest := RenderMembers(members[1..], fmt, rd);
            && RenderMembers(members, fmt, rd) == head + rest
            && ws + RenderMembers(members, fmt, rd) + close == ws + (head + (rest + close))
            && (|members| == 1 ==> rest == [])
  {
    hide RenderMember;
  }

  lemma MembersFacts(members: seq<Member>)
    requires members != [] && PrintableMembers(members)
    ensures NulFree(members[0].key) && Printable(members[0].value) && PrintableMembers(members[1..])
    ensures Height(members[0].value) <= MembersHeight(members) && MembersHeight(members[1..]) <= MembersHeight(members)
  {
  }

  lemma WhiteConcat(a: seq<byte>, b: seq<byte>)
    requires White(a) && White(b)
    ensures White(a + b)
  {
  }

  lemma WhiteStart(s: seq<byte>)
    requires White(s)
    ensures s != [] ==> !IsNumeric(s[0])
  {
  }

  lemma EndShape(fmt: bool, last: bool)
    ensures var end := MemberEnd(fmt, last);
            if last then White(end) else end != [] && end == [COMMA] + end[1..] && White(end[1..])
  {
  }

  lemma {:induction false} ParseRenderedKey(key: seq<byte>, ws: seq<byte>, sep: seq<byte>, first: byte, c: seq<byte>, p: nat)
    requires Terminated(c) && NulFree(key) && White(ws)
    requires |sep| > 0 && sep[0] == COLON && White(sep[1..])
    requires HasAt(c, p, ws) && HasAt(c, p + |ws|, Quoted(key)) && HasAt(c, p + |ws| + |Quoted(key)|, sep)
    requires var start := p + |ws| + |Quoted(key)| + |sep|; start < |c| && c[start] == first && first > 32
    ensures p < |c| && ParseKey(c, p) == Ok(key, p + |ws| + |Quoted(key)| + |sep|)
  {
    hide HasAt, ParseString, Skip, Terminated, NulFree;
    var q := p + |ws|;
    HasAtIndex(c, q, Quoted(key), 0);
    SkipWhite(c, p, ws);
    ParseQuoted(c, q, key);
    var colon := q + |Quoted(key)|;
    assert sep == [COLON] + sep[1..];
    HasAtSplit(c, colon, [COLON], sep[1..]);
    HasAtIndex(c, colon, [COLON], 0);
    SkipNone(c, colon);
    SkipWhite(c, colon + 1, sep[1..]);
  }

  /** One member: its key and value are read, leaving the separator that follows. */
  lemma {:induction false} ParseRenderedMember(m: Member, fmt: bool, rd: nat, last: bool, ws: seq<byte>,
                                               c: seq<byte>, p: nat, d: nat)
    returns (start: nat)
    requires Terminated(c) && NulFree(m.key) && Printable(m.value) && White(ws)
    requires d + Height(m.value) <= NESTING_LIMIT
    requires HasAt(c, p, ws) && HasAt(c, p + |ws|, RenderMember(m, fmt, rd, last))
    requires p + |ws| + |RenderMember(m, fmt, rd, last)| < |c|
    requires last && !fmt ==> !IsNumeric(c[p + |ws| + |RenderMember(m, fmt, rd, last)|])
    ensures p < |c| && ParseKey(c, p) == Ok(m.key, start) && start < |c|
    ensures var end := p + |ws| + |RenderMember(m, fmt, rd, last)| - |MemberEnd(fmt, last)|;
            && 0 <= end
            && ParseValue(c, start, d) == Ok(m.value, end)
            && HasAt(c, end, MemberEnd(fmt, last))
    decreases m, 4
  {
    hide HasAt, ParseValue, ParseKey, Skip, Render, RenderMember, Terminated, Quoted, Printable, Height, NulFree, Tabs, White,
         Indent, KeySeparator, MemberEnd, IsNumeric;
    var indent, sep, end := Indent(fmt, rd), KeySeparator(fmt), MemberEnd(fmt, last);
    var key, text := Quoted(m.key), Render(m.value, fmt, rd);
    var q := p + |ws|;
    MemberParts(m, fmt, rd, last);
    HasAtSplit(c, q, indent + key + sep + text, end);
    HasAtFour(c, q, indent, key, sep, text);
    HasAtSplit(c, p, ws, indent);
    WhiteConcat(ws, indent);
    start := q + |indent| + |key| + |sep|;
    FirstByte(m.value, fmt, rd);
    HasAtIndex(c, start, text, 0);
    ParseRenderedKey(m.key, ws + indent, sep, text[0], c, p);
    if end != [] {
      HasAtIndex(c, start + |text|, end, 0);
    }
    HasAtEmpty(c, start);
    NothingIsWhite();
    ParseItemAfterWhite(m.value, fmt, rd, [], c, start, d);
  }

  lemma NothingIsWhite()
    ensures White([])
  {
  }

  /** A member's text in parts, and what the parser needs to know of each. */
  lemma MemberParts(m: Member, fmt: bool, rd: nat, last: bool)
    ensures RenderMember(m, fmt, rd, last)
            == Indent(fmt, rd) + Quoted(m.key) + KeySeparator(fmt) + Render(m.value, fmt, rd) + MemberEnd(fmt, last)
    ensures White(Indent(fmt, rd))
    ensures var sep := KeySeparator(fmt); |sep| > 0 && sep[0] == COLON && White(sep[1..])
    ensures var end := MemberEnd(fmt, last); (end == [] <==> last && !fmt) && (end != [] ==> !IsNumeric(end[0]))
  {
    hide Quoted, Render;
  }

  // ---------- nesting ----------

  /** The parser never returns a value nested deeper than the limit, counting from where it started. */
  lemma {:induction false} ParsedHeight(c: seq<byte>, o: nat, depth: nat)
    requires Terminated(c) && o < |c| && depth <= NESTING_LIMIT
    ensures var r := ParseValue(c, o, depth); r.Ok? ==> depth + Height(r.value) <= NESTING_LIMIT
    decreases |c| - o, 1
  {
    hide ParseString, ParseNumber, Skip, ParseItems, ParseMembers;
    if c[o] == LBRACKET && depth < NESTING_LIMIT && ParseValue(c, o, depth).Ok? {
      var first := Skip(c, o + 1);
      if c[first] != RBRACKET {
        ParsedItemsHeight(c, first, depth + 1);
      }
    }
    if c[o] == LBRACE && depth < NESTING_LIMIT && ParseValue(c, o, depth).Ok? {
      var first := Skip(c, o + 1);
      if c[first] != RBRACE {
        ParsedMembersHeight(c, first, depth + 1);
      }
    }
  }

  lemma {:induction false} ParsedItemsHeight(c: seq<byte>, p: nat, depth: nat)
    requires Terminated(c) && p < |c| && depth <= NESTING_LIMIT
    ensures var r := ParseItems(c, p, depth); r.Ok? ==> depth + ItemsHeight(r.value) <= NESTING_LIMIT
    decreases |c| - p, 2
  {
    hide ParseValue, Skip, Height;
    var s := Skip(c, p);
    ParsedHeight(c, s, depth);
    var v := ParseValue(c, s, depth);
    if v.Ok? {
      var m := Skip(c, v.next);
      if c[m] == COMMA {
        ParsedItemsHeight(c, m + 1, depth);
      }
    }
  }

  lemma {:induction false} ParsedMembersHeight(c: seq<byte>, p: nat, depth: nat)
    requires Terminated(c) && p < |c| && depth <= NESTING_LIMIT
    ensures var r := ParseMembers(c, p, depth); r.Ok? ==> depth + MembersHeight(r.value) <= NESTING_LIMIT
    decreases |c| - p, 2
  {
    hide ParseValue, Skip, Height, ParseKey;
    var k := ParseKey(c, p);
    if k.Ok? {
      ParsedHeight(c, k.next, depth);
      var v := ParseValue(c, k.next, depth);
      if v.Ok? {
        var m := Skip(c, v.next);
        if c[m] == COMMA {
          ParsedMembersHeight(c, m + 1, depth);
        }
      }
    }
  }

  /**
   The whole-text round trip: the text of a printable value, formatted or not, parses
   back to that value exactly when its nesting is within the parser's limit.
   */
  lemma {:induction false} RoundTrip(t: Json, fmt: bool, requireNullTerminated: bool)
    requires Printable(t)
    ensures var r := Render(t, fmt, 0);
            ParseText(r, requireNullTerminated) == Ok(t, |r|) <==> Height(t) <= 1000
  {
    hide Render, ParseValue, Skip, Printable;
    var r := Render(t, fmt, 0);
    var c := r + [NUL];
    FirstByte(t, fmt, 0);
    assert c[0] == r[0];
    NoBom(t, fmt);
    BomStart(c);
    SkipNone(c, 0);
    SkipAtEnd(c);
    ParsedHeight(c, 0, 0);
    if Height(t) <= NESTING_LIMIT {
      assert HasAt(c, 0, r);
      ParseRendered(t, fmt, 0, c, 0, 0);
    }
  }

  lemma NoBom(t: Json, fmt: bool)
    ensures Render(t, fmt, 0)[0] != 0xEF
  {
    hide RenderItems, RenderMembers, EscapeAll;
    match t
    case Number(v) =>
      assert Decimal(v.Floor)[0] == MINUS || IsDigit(Decimal(v.Floor)[0]);
    case Array(items) =>
      assert Render(t, fmt, 0)[0] == LBRACKET;
    case Object(members) =>
      assert Render(t, fmt, 0)[0] == ObjectOpen(fmt)[0];
    case _ =>
  }

  lemma BomStart(c: seq<byte>)
    ensures HasBom(c) ==> c[0] == 0xEF
  {
    if HasBom(c) {
      assert c[0] == c[..3][0];
    }
  }

  lemma SkipAtEnd(c: seq<byte>)
    requires Terminated(c)
    ensures Skip(c, |c| - 1) == |c| - 1
  {
    assert SpacesEnd(c, |c|) == |c|;
  }
}
