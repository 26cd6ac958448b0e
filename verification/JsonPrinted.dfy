/**
 What printed texts look like: they are texts of RFC 8259 that denote the printed value, each
 byte of a string in its shortest spelling, laid out with tabs and line feeds or with nothing.
 */
module JsonPrinted {
  import opened Bytes
  import opened JsonValue
  import opened JsonRender
  import opened JsonSyntax
  import opened JsonGrammar
  import C = JsonComplete
  import R = JsonRoundTrip

  // ---------- strings ----------

  /** How a byte is spelled as a character of the grammar. */
  function CharOf(b: byte): Char {
    var s := Escape(b);
    if |s| == 1 then Raw(b)
    else if |s| == 6 then CodeUnit(s[2], s[3], s[4], s[5])
    else Escaped(s[1])
  }

  lemma CharOfByte(b: byte)
    requires b != NUL
    ensures IsChar(CharOf(b), true) && CharText(CharOf(b)) == Escape(b) && CharBytes(CharOf(b)) == [b]
    ensures !IsHigh(CharOf(b)) && !IsLow(CharOf(b))
  {
    hide HexDigit, HexValue;
    R.EscapeShape(b);
    if R.LongEscape(Escape(b), b) {
      R.HexRoundTrip(b / 16);
      R.HexRoundTrip(b % 16);
      R.ZeroDigit();
      ZeroValue();
      assert Escape(b) == [BACKSLASH, 117, 48, 48, HexDigit(b / 16), HexDigit(b % 16)];
    }
  }

  lemma ZeroValue()
    ensures HexValue(48) == Some(0)
  {
  }

  /** No character of RFC 8259 that stands for the byte is shorter. */
  lemma EscapeIsShortest(b: byte, x: Char)
    requires IsChar(x, true) && CharBytes(x) == [b]
    ensures |Escape(b)| <= |CharText(x)|
  {
    hide HexDigit, HexValue;
  }

  /** An escape in hex is written with small letters. */
  lemma HexIsSmall(b: byte)
    requires |Escape(b)| == 6
    ensures var digits := Ascii("0123456789abcdef");
            Escape(b) == Ascii("\\u00") + [digits[b / 16], digits[b % 16]]
  {
    hide HexDigit;
    SmallDigit(b / 16);
    SmallDigit(b % 16);
  }

  lemma SmallDigit(d: nat)
    requires d < 16
    ensures HexDigit(d) == Ascii("0123456789abcdef")[d]
  {
  }

  function CharsOf(s: seq<byte>): seq<Char> {
    if s == [] then [] else [CharOf(s[0])] + CharsOf(s[1..])
  }

  /** A printed string is one of the grammar, and its characters are those of the string. */
  lemma {:induction false} PrintedString(s: seq<byte>)
    requires NulFree(s)
    ensures AreChars(CharsOf(s), true) && CharsText(CharsOf(s)) == EscapeAll(s) && Decoded(CharsOf(s)) == s && Paired(CharsOf(s))
    decreases |s|
  {
    hide Escape, CharOf, IsChar, CharText, CharBytes, IsHigh, IsLow;
    if s != [] {
      CharOfByte(s[0]);
      PrintedString(s[1..]);
      assert CharsOf(s)[1..] == CharsOf(s[1..]);
      assert s == [s[0]] + s[1..];
    }
  }

  // ---------- numbers ----------

  function NumeralOf(n: int): Numeral {
    Numeral(n < 0, Digits(if n < 0 then -n else n), false, [], NoExponent)
  }

  lemma {:induction false} NoLeadingZero(n: nat)
    ensures Digits(n)[0] == 48 ==> |Digits(n)| == 1
    decreases n
  {
    if n >= 10 {
      NoLeadingZero(n / 10);
      if Digits(n / 10)[0] == 48 { ZeroAlone(n / 10); }
    }
  }

  lemma {:induction false} ZeroAlone(n: nat)
    requires Digits(n)[0] == 48
    ensures n == 0
    decreases n
  {
    if n >= 10 {
      ZeroAlone(n / 10);
    }
  }

  /** A printed integer is a numeral of the grammar with that value. */
  lemma {:induction false} PrintedNumber(n: int)
    requires -DECIMAL_LIMIT < n < DECIMAL_LIMIT
    ensures IsNumeral(NumeralOf(n), true) && NumeralText(NumeralOf(n)) == Decimal(n)
    ensures NumeralValue(NumeralOf(n)) == n as real && |Decimal(n)| <= 63
  {
    hide Digits, NumeralValue, Strtod;
    var m := if n < 0 then -n else n;
    NoLeadingZero(m);
    assert NumeralText(NumeralOf(n)) == Decimal(n);
    C.NumeralIsLoose(NumeralOf(n));
    C.StrtodOfNumeral(NumeralOf(n));
    R.StrtodOfDecimal(n);
    R.DecimalFits(n);
  }

  // ---------- values ----------

  /** What stands in front of an item of an array: a space, if formatted and not the first. */
  function Gap(fmt: bool, first: bool): seq<byte> {
    if fmt && !first then [SPACE] else []
  }

  /** What stands in front of a member and of a closing brace: a new line at that depth, if formatted. */
  function Line(fmt: bool, depth: nat): seq<byte> {
    if fmt then [NEWLINE] + Tabs(depth) else []
  }

  /** A value as concrete syntax: key and value on one line, with a tab between them, if formatted. */
  function SyntaxOf(t: Json, fmt: bool, depth: nat): Syntax
    decreases t, 1
  {
    match t
    case Null => NullWord
    case False => FalseWord
    case True => TrueWord
    case Number(v) => NumberOf(NumeralOf(v.Floor))
    case String(s) => StringOf(Text(CharsOf(s), false))
    case Array(items) => ArrayOf([], ElementsOf(items, fmt, depth + 1, true))
    case Object(members) => ObjectOf(Line(fmt, depth), EntriesOf(members, fmt, depth + 1))
  }

  function ElementsOf(items: seq<Json>, fmt: bool, depth: nat, first: bool): seq<Element>
    decreases items, 0
  {
    if items == [] then []
    else [Element(Gap(fmt, first), SyntaxOf(items[0], fmt, depth), [])] + ElementsOf(items[1..], fmt, depth, false)
  }

  function EntryOf(m: Member, fmt: bool, depth: nat, last: bool): Entry
    decreases m, 2
  {
    Entry(Line(fmt, depth), Text(CharsOf(m.key), false), [],
          Element(if fmt then [TAB] else [], SyntaxOf(m.value, fmt, depth),
                  if last then Line(fmt, if depth > 0 then depth - 1 else 0) else []))
  }

  function EntriesOf(members: seq<Member>, fmt: bool, depth: nat): seq<Entry>
    decreases members, 0
  {
    if members == [] then []
    else [EntryOf(members[0], fmt, depth, |members| == 1)] + EntriesOf(members[1..], fmt, depth)
  }

  /**
   Whatever is printed, formatted or not, is the text of this syntax, which is a value of RFC
   8259 that denotes the printed one and that the parser supports.
   */
  lemma {:induction false} PrintedValue(t: Json, fmt: bool, depth: nat)
    requires Printable(t)
    ensures var x := SyntaxOf(t, fmt, depth);
            IsJson(x, true) && TextOf(x) == Render(t, fmt, depth) && ValueOf(x) == t && Supported(x)
    decreases t, 1
  {
    hide ElementsOf, EntriesOf, CharsOf, EscapeAll, Decoded, Paired, AreChars, CharsText, NumeralOf, NumeralText, NumeralValue, IsNumeral,
         Decimal, ElementsText, EntriesText, ValuesOf, MembersOf, AreElements, AreEntries, AllSupported, EntriesSupported,
         RenderItems, RenderMembers, Line, PrintableItems, PrintableMembers;
    match t
    case Number(v) => PrintedNumber(v.Floor);
    case String(s) => PrintedString(s);
    case Array(items) =>
      NothingIsBlank();
      PrintedItems(items, fmt, depth + 1, true);
      ArrayText(items, fmt, depth);
    case Object(members) =>
      LineIsBlank(fmt, depth);
      PrintedMembers(members, fmt, depth + 1);
      ObjectText(members, fmt, depth);
    case _ =>
  }

  lemma ArrayText(items: seq<Json>, fmt: bool, depth: nat)
    requires var es := ElementsOf(items, fmt, depth + 1, true);
             |es| == |items| && (items != [] ==> ElementsText(es) == Gap(fmt, true) + RenderItems(items, fmt, depth + 1))
    ensures TextOf(SyntaxOf(Array(items), fmt, depth)) == Render(Array(items), fmt, depth)
  {
    hide ElementsOf, ElementsText, RenderItems;
    R.NoItems(fmt, depth + 1);
    assert [] + RenderItems(items, fmt, depth + 1) == RenderItems(items, fmt, depth + 1);
  }

  lemma NothingIsBlank()
    ensures Blank([])
  {
  }

  lemma LineIsBlank(fmt: bool, depth: nat)
    ensures Blank(Line(fmt, depth))
  {
  }

  lemma {:induction false} PrintedItems(items: seq<Json>, fmt: bool, depth: nat, first: bool)
    requires PrintableItems(items)
    ensures var es := ElementsOf(items, fmt, depth, first);
            && |es| == |items| && AreElements(es, true) && ValuesOf(es) == items && AllSupported(es)
            && (items != [] ==> ElementsText(es) == Gap(fmt, first) + RenderItems(items, fmt, depth))
    decreases items, 0
  {
    hide SyntaxOf, Render, TextOf, ValueOf, IsJson, Supported, Printable;
    if items != [] {
      var es, rest := ElementsOf(items, fmt, depth, first), ElementsOf(items[1..], fmt, depth, false);
      PrintedValue(items[0], fmt, depth);
      PrintedItems(items[1..], fmt, depth, false);
      assert es[1..] == rest && es[0] == Element(Gap(fmt, first), SyntaxOf(items[0], fmt, depth), []);
      assert items == [items[0]] + items[1..];
      ElementAlone(es[0]);
      if |items| > 1 {
        assert [COMMA] + Gap(fmt, false) == ItemSeparator(fmt);
        JoinFour(Gap(fmt, first), Render(items[0], fmt, depth), [COMMA], Gap(fmt, false), RenderItems(items[1..], fmt, depth));
      }
    }
  }

  lemma ElementAlone(e: Element)
    requires e.after == []
    ensures ElementText(e) == e.before + TextOf(e.value)
  {
  }

  lemma JoinFour(a: seq<byte>, b: seq<byte>, c: seq<byte>, d: seq<byte>, e: seq<byte>)
    ensures a + b + c + (d + e) == a + (b + (c + d) + e)
  {
  }

  lemma {:induction false} PrintedMembers(members: seq<Member>, fmt: bool, depth: nat)
    requires PrintableMembers(members) && depth > 0
    ensures var es := EntriesOf(members, fmt, depth);
            && |es| == |members| && AreEntries(es, true) && MembersOf(es) == members && EntriesSupported(es)
            && (members != [] ==>
                  (if fmt then [NEWLINE] else []) + RenderMembers(members, fmt, depth) + Indent(fmt, depth - 1) == EntriesText(es))
    decreases members, 0
  {
    hide EntryOf, RenderMember, EntryText, IsEntry, Printable, ValueOf, Decoded, Paired, Supported;
    if members != [] {
      var es, rest, last := EntriesOf(members, fmt, depth), EntriesOf(members[1..], fmt, depth), |members| == 1;
      PrintedMember(members[0], fmt, depth, last);
      PrintedMembers(members[1..], fmt, depth);
      assert es[1..] == rest && es[0] == EntryOf(members[0], fmt, depth, last);
      assert members == [members[0]] + members[1..];
      var n := if fmt then [NEWLINE] else [];
      if last {
        assert RenderMembers(members, fmt, depth) == RenderMember(members[0], fmt, depth, true) + RenderMembers([], fmt, depth);
      } else {
        JoinMembers(n, RenderMember(members[0], fmt, depth, false), RenderMembers(members[1..], fmt, depth),
                    Indent(fmt, depth - 1), EntryText(es[0]), EntriesText(rest));
      }
    }
  }

  /** A member behind its new line: the separator that follows belongs to the text of the object. */
  lemma {:induction false} PrintedMember(m: Member, fmt: bool, depth: nat, last: bool)
    requires NulFree(m.key) && Printable(m.value) && depth > 0
    ensures var e := EntryOf(m, fmt, depth, last);
            && IsEntry(e, true) && Decoded(e.key.chars) == m.key && ValueOf(e.element.value) == m.value
            && Paired(e.key.chars) && Supported(e.element.value)
            && var n: seq<byte> := if fmt then [NEWLINE] else [];
               && (last ==> n + RenderMember(m, fmt, depth, true) + Indent(fmt, depth - 1) == EntryText(e))
               && (!last ==> n + RenderMember(m, fmt, depth, false) == EntryText(e) + [COMMA] + n)
    decreases m, 3
  {
    hide SyntaxOf, Render, TextOf, ValueOf, IsJson, Supported, Printable, CharsOf, EscapeAll, Decoded, Paired, AreChars, CharsText;
    PrintedValue(m.value, fmt, depth);
    PrintedString(m.key);
    NothingIsBlank();
    LineIsBlank(fmt, depth);
    LineIsBlank(fmt, depth - 1);
    var e := EntryOf(m, fmt, depth, last);
    assert StringText(e.key) == Quoted(m.key);
    MemberText(m, fmt, depth, last);
  }

  lemma {:induction false} MemberText(m: Member, fmt: bool, depth: nat, last: bool)
    requires depth > 0 && StringText(Text(CharsOf(m.key), false)) == Quoted(m.key)
    requires TextOf(SyntaxOf(m.value, fmt, depth)) == Render(m.value, fmt, depth)
    ensures var e := EntryOf(m, fmt, depth, last);
            var n: seq<byte> := if fmt then [NEWLINE] else [];
            && (last ==> n + RenderMember(m, fmt, depth, true) + Indent(fmt, depth - 1) == EntryText(e))
            && (!last ==> n + RenderMember(m, fmt, depth, false) == EntryText(e) + [COMMA] + n)
  {
    hide TextOf, Render, Quoted, StringText, SyntaxOf, CharsOf, Indent;
    var e := EntryOf(m, fmt, depth, last);
    var tab: seq<byte> := if fmt then [TAB] else [];
    var n: seq<byte> := if fmt then [NEWLINE] else [];
    var k, q, v := Indent(fmt, depth), Quoted(m.key), Render(m.value, fmt, depth);
    assert KeySeparator(fmt) == [COLON] + tab;
    LineText(fmt, depth);
    LineText(fmt, depth - 1);
    if last {
      assert MemberEnd(fmt, true) == n;
      JoinLast(n, k, q, tab, v, Indent(fmt, depth - 1));
    } else {
      assert MemberEnd(fmt, false) == [COMMA] + n;
      JoinNext(n, k, q, tab, v);
    }
  }

  lemma LineText(fmt: bool, depth: nat)
    ensures Line(fmt, depth) == (if fmt then [NEWLINE] else []) + Indent(fmt, depth)
  {
  }

  lemma JoinLast(n: seq<byte>, k: seq<byte>, q: seq<byte>, tab: seq<byte>, v: seq<byte>, z: seq<byte>)
    ensures n + (k + q + ([COLON] + tab) + v + n) + z == ((n + k) + q + [] + [COLON]) + (tab + v + (n + z))
  {
    assert ((n + k) + q + [] + [COLON]) + (tab + v + (n + z)) == n + k + q + [COLON] + tab + v + n + z;
    assert n + (k + q + ([COLON] + tab) + v + n) + z == n + k + q + [COLON] + tab + v + n + z;
  }

  lemma JoinNext(n: seq<byte>, k: seq<byte>, q: seq<byte>, tab: seq<byte>, v: seq<byte>)
    ensures n + (k + q + ([COLON] + tab) + v + ([COMMA] + n)) == (((n + k) + q + [] + [COLON]) + (tab + v + [])) + [COMMA] + n
  {
    assert (((n + k) + q + [] + [COLON]) + (tab + v + [])) + [COMMA] + n == n + k + q + [COLON] + tab + v + [COMMA] + n;
    assert n + (k + q + ([COLON] + tab) + v + ([COMMA] + n)) == n + k + q + [COLON] + tab + v + [COMMA] + n;
  }

  lemma JoinMembers(n: seq<byte>, x: seq<byte>, y: seq<byte>, z: seq<byte>, e: seq<byte>, es: seq<byte>)
    requires n + x == e + [COMMA] + n && n + y + z == es
    ensures n + (x + y) + z == e + [COMMA] + es
  {
    assert n + (x + y) + z == (n + x) + (y + z);
    assert (e + [COMMA] + n) + (y + z) == e + [COMMA] + (n + y + z);
  }

  lemma {:induction false} ObjectText(members: seq<Member>, fmt: bool, depth: nat)
    requires |EntriesOf(members, fmt, depth + 1)| == |members|
    requires members != [] ==>
               (if fmt then [NEWLINE] else []) + RenderMembers(members, fmt, depth + 1) + Indent(fmt, depth)
               == EntriesText(EntriesOf(members, fmt, depth + 1))
    ensures TextOf(SyntaxOf(Object(members), fmt, depth)) == Render(Object(members), fmt, depth)
  {
    hide EntriesOf, EntriesText, RenderMembers;
    var n: seq<byte> := if fmt then [NEWLINE] else [];
    assert ObjectOpen(fmt) == [LBRACE] + n;
    if members == [] {
      R.NoMembers(fmt, depth + 1);
      assert Line(fmt, depth) == n + Indent(fmt, depth);
    }
  }
}
