/** The library's parts one after the other, on heap trees: print and parse, print and minify, parse any grammatical text. */
module JsonWhole {
  import opened Bytes
  import V = JsonValue
  import opened JsonRender
  import opened JsonNode
  import opened JsonTree
  import S = JsonSyntax
  import JsonPrinter
  import JsonTreePrinter
  import JsonParser
  import JsonRoundTrip
  import M = JsonMinify
  import P = JsonMinifyPrint
  import opened JsonGrammar
  import JsonComplete
  import JsonSound

  // ---------- printed texts are C strings ----------

  lemma {:induction false} RenderNulFree(t: V.Json, fmt: bool, depth: nat)
    requires V.Printable(t)
    ensures NulFree(Render(t, fmt, depth))
    decreases t, 1
  {
    hide RenderItems, RenderMembers, Quoted, Digits, V.PrintableItems, V.PrintableMembers, Indent, NulFree;
    LiteralsNulFree();
    match t
    case Number(v) => DecimalNulFree(v.Floor);
    case String(s) => JsonPrinter.QuotedNulFree(s);
    case Array(items) =>
      RenderItemsNulFree(items, fmt, depth + 1);
      Bracketed([LBRACKET], RenderItems(items, fmt, depth + 1), [RBRACKET]);
    case Object(members) =>
      RenderMembersNulFree(members, fmt, depth + 1);
      IndentNulFree(fmt, depth);
      Bracketed(ObjectOpen(fmt), RenderMembers(members, fmt, depth + 1), Indent(fmt, depth));
      Bracketed(ObjectOpen(fmt) + RenderMembers(members, fmt, depth + 1) + Indent(fmt, depth), [], [RBRACE]);
      assert ObjectOpen(fmt) + RenderMembers(members, fmt, depth + 1) + Indent(fmt, depth) + [] + [RBRACE]
             == Render(t, fmt, depth);
    case _ =>
  }

  lemma LiteralsNulFree()
    ensures NulFree(NULL_TEXT) && NulFree(TRUE_TEXT) && NulFree(FALSE_TEXT)
    ensures NulFree([LBRACKET]) && NulFree([RBRACKET]) && NulFree([RBRACE]) && NulFree([])
    ensures forall fmt :: NulFree(ObjectOpen(fmt)) && NulFree(ItemSeparator(fmt)) && NulFree(KeySeparator(fmt))
    ensures forall fmt, last :: NulFree(MemberEnd(fmt, last))
  {
  }

  lemma DecimalNulFree(n: int)
    ensures NulFree(Decimal(n))
  {
    hide Digits;
    if n < 0 { JsonPrinter.NulFreeConcat([MINUS], Digits(-n)); }
  }

  lemma IndentNulFree(fmt: bool, depth: nat)
    ensures NulFree(Indent(fmt, depth))
  {
  }

  lemma {:induction false} Bracketed(a: seq<byte>, b: seq<byte>, c: seq<byte>)
    ensures NulFree(a + b + c) <==> NulFree(a) && NulFree(b) && NulFree(c)
  {
    hide NulFree;
    JsonPrinter.NulFreeConcat(a, b);
    JsonPrinter.NulFreeConcat(a + b, c);
  }

  lemma {:induction false} RenderItemsNulFree(items: seq<V.Json>, fmt: bool, depth: nat)
    requires V.PrintableItems(items)
    ensures NulFree(RenderItems(items, fmt, depth))
    decreases items, 0
  {
    hide Render, V.Printable, NulFree;
    LiteralsNulFree();
    if items != [] {
      RenderNulFree(items[0], fmt, depth);
      RenderItemsNulFree(items[1..], fmt, depth);
      Bracketed(Render(items[0], fmt, depth), ItemSeparator(fmt), RenderItems(items[1..], fmt, depth));
    }
  }

  lemma {:induction false} RenderMembersNulFree(members: seq<V.Member>, fmt: bool, depth: nat)
    requires V.PrintableMembers(members)
    ensures NulFree(RenderMembers(members, fmt, depth))
    decreases members, 0
  {
    hide Render, V.Printable, NulFree, Quoted, Indent, KeySeparator, MemberEnd;
    LiteralsNulFree();
    if members != [] {
      var m, last := members[0], |members| == 1;
      RenderNulFree(m.value, fmt, depth);
      RenderMembersNulFree(members[1..], fmt, depth);
      JsonPrinter.QuotedNulFree(m.key);
      IndentNulFree(fmt, depth);
      Bracketed(Indent(fmt, depth), Quoted(m.key), KeySeparator(fmt));
      Bracketed(Indent(fmt, depth) + Quoted(m.key) + KeySeparator(fmt), Render(m.value, fmt, depth), MemberEnd(fmt, last));
      JsonPrinter.NulFreeConcat(RenderMember(m, fmt, depth, last), RenderMembers(members[1..], fmt, depth));
    }
  }

  // ---------- print and parse ----------

  lemma {:induction false} AcceptedHeight(text: seq<byte>, requireNullTerminated: bool)
    ensures var r := S.ParseText(text, requireNullTerminated); r.Ok? ==> V.Height(r.value) <= S.NESTING_LIMIT
  {
    hide S.ParseValue, S.Skip, V.Height;
    var c := text + [NUL];
    JsonRoundTrip.ParsedHeight(c, S.Skip(c, if S.HasBom(c) then 3 else 0), 0);
  }

  /**
   Print a tree and parse the text. When the text fits an `int` with two bytes more, the result
   is a fresh, well-linked tree of the same value exactly when that nests at most 1000 deep.
   */
  method PrintAndParse(item: Node, format: bool, ghost s: Shape) returns (copy: Node?, ghost t: Shape)
    requires s.node == item && Tree(s) && Typed(s) && V.Printable(Value(s))
    ensures var v := old(Value(s));
            (copy != null && Value(t) == v) <==> |Render(v, format, 0)| + 2 <= INT_MAX && V.Height(v) <= 1000
    ensures copy != null ==> t.node == copy && Tree(t) && Typed(t) && fresh(Nodes(t))
  {
    hide Tree, Typed, Value, V.Printable, V.Height, Render, S.ParseText;
    ghost var v := Value(s);
    ghost var text := Render(v, format, 0);
    var printed := JsonTreePrinter.Print(item, format, s);
    if printed == null {
      return null, s;
    }
    RenderNulFree(v, format, 0);
    var value := printed[..printed.Length - 1];
    assert value == text;
    JsonRoundTrip.RoundTrip(v, format, true);
    AcceptedHeight(text, true);
    var end;
    copy, end, t := JsonParser.ParseWithOpts(value, true);
  }

  // ---------- print and minify ----------

  /**
   Print a tree with formatting and minify the text in place: the array then holds the
   unformatted print exactly when nothing follows a string or key that ends in a backslash.
   */
  method PrintAndMinify(item: Node, ghost s: Shape) returns (json: array?<byte>)
    requires s.node == item && Tree(s) && Typed(s) && V.Printable(Value(s))
    ensures json != null <==> |Render(old(Value(s)), true, 0)| + 2 <= INT_MAX
    ensures json != null ==> fresh(json)
    ensures json != null ==>
      (CString(json[..]) == Render(old(Value(s)), false, 0) <==> P.Follow(old(Value(s))) != P.Lost)
  {
    hide Tree, Typed, Value, V.Printable, Render, M.Minified, P.Follow;
    ghost var v := Value(s);
    ghost var text := Render(v, true, 0);
    json := JsonTreePrinter.Print(item, true, s);
    if json == null {
      return;
    }
    RenderNulFree(v, true, 0);
    Unstarted(json, text);
    P.MinifyRestores(v);
    M.Minify(json, text);
    ghost var minified := M.Minified(text, 0);
    MinifiedNulFree(text, 0);
    TerminatedText(json[..], minified);
  }

  lemma {:induction false} Unstarted(json: array<byte>, text: seq<byte>)
    requires json[..] == text + [NUL] && NulFree(text)
    ensures M.Unread(json, text, 0)
  {
    forall k | 0 <= k < |text| ensures json[k] == text[k] { assert json[..][k] == (text + [NUL])[k]; }
    assert json[..][|text|] == NUL;
  }

  lemma {:induction false} TerminatedText(buffer: seq<byte>, text: seq<byte>)
    requires |text| < |buffer| && buffer[..|text|] == text && buffer[|text|] == NUL && NulFree(text)
    ensures CString(buffer) == text
    decreases |text|
  {
    if text != [] {
      assert buffer[0] == buffer[..|text|][0] == text[0];
      assert buffer[1..][..|text| - 1] == text[1..];
      TerminatedText(buffer[1..], text[1..]);
    }
  }

  lemma {:induction false} MinifiedNulFree(c: seq<byte>, i: nat)
    requires NulFree(c) && i <= |c|
    ensures NulFree(M.Minified(c, i))
    decreases |c| - i
  {
    hide NulFree, M.SpanEnd, M.LineEnd, M.CommentEnd;
    if i < |c| {
      ByteNotNul(c, i);
      if c[i] == QUOTE {
        var e := M.SpanEnd(c, i + 1);
        MinifiedNulFree(c, e);
        SliceNulFree(c, i, e);
        JsonPrinter.NulFreeConcat(c[i..e], M.Minified(c, e));
      } else {
        MinifiedNulFree(c, i + 1);
        if i + 1 < |c| {
          MinifiedNulFree(c, i + 2);
          MinifiedNulFree(c, M.LineEnd(c, i + 2));
          MinifiedNulFree(c, M.CommentEnd(c, i + 2));
        }
        SliceNulFree(c, i, i + 1);
        assert c[i..i + 1] == [c[i]];
        JsonPrinter.NulFreeConcat([c[i]], M.Minified(c, i + 1));
      }
    } else {
      LiteralsNulFree();
    }
  }

  lemma ByteNotNul(c: seq<byte>, i: nat)
    requires NulFree(c) && i < |c|
    ensures c[i] != NUL
  {
  }

  lemma SliceNulFree(c: seq<byte>, i: nat, j: nat)
    requires NulFree(c) && i <= j <= |c|
    ensures NulFree(c[i..j])
  {
  }

  // ---------- texts of the grammar ----------

  lemma {:induction false} SyntaxNulFree(x: Syntax)
    requires IsJson(x, true)
    ensures NulFree(TextOf(x))
    decreases x, 2
  {
    hide NulFree, NumeralText, StringText, ElementsText, EntriesText, IsNumeral, AreChars, AreElements, AreEntries, Blank;
    LiteralsNulFree();
    match x
    case NumberOf(n) => NumeralNulFree(n);
    case StringOf(s) => StringNulFree(s);
    case ArrayOf(gap, elements) =>
      BlankNulFree(gap);
      ElementsNulFree(elements);
      Bracketed([LBRACKET], if elements == [] then gap else ElementsText(elements), [RBRACKET]);
    case ObjectOf(gap, entries) =>
      BlankNulFree(gap);
      EntriesNulFree(entries);
      BraceNulFree();
      Bracketed([LBRACE], if entries == [] then gap else EntriesText(entries), [RBRACE]);
    case _ =>
  }

  lemma BraceNulFree()
    ensures NulFree([LBRACE]) && NulFree([QUOTE]) && NulFree([COLON]) && NulFree([COMMA])
  {
  }

  lemma BlankNulFree(s: seq<byte>)
    requires Blank(s)
    ensures NulFree(s)
  {
  }

  lemma NumeralNulFree(n: Numeral)
    requires IsNumeral(n, true)
    ensures NulFree(NumeralText(n))
  {
    hide NumeralText, IsNumeral;
    JsonComplete.NumeralIsLoose(n);
    JsonComplete.NumeralBytes(n);
  }

  lemma {:induction false} CharsNulFree(xs: seq<Char>)
    requires AreChars(xs, true)
    ensures NulFree(CharsText(xs))
    decreases |xs|
  {
    hide NulFree, IsChar, CharText;
    LiteralsNulFree();
    if xs != [] {
      CharNulFree(xs[0]);
      CharsNulFree(xs[1..]);
      JsonPrinter.NulFreeConcat(CharText(xs[0]), CharsText(xs[1..]));
    }
  }

  lemma CharNulFree(x: Char)
    requires IsChar(x, true)
    ensures NulFree(CharText(x))
  {
  }

  lemma {:induction false} StringNulFree(s: Text)
    requires IsText(s, true)
    ensures NulFree(StringText(s))
  {
    hide NulFree, AreChars, CharsText;
    CharsNulFree(s.chars);
    BraceNulFree();
    Bracketed([QUOTE], CharsText(s.chars), [QUOTE]);
  }

  lemma {:induction false} ElementNulFree(e: Element)
    requires IsElement(e, true)
    ensures NulFree(ElementText(e))
    decreases e, 3
  {
    hide NulFree, IsJson, TextOf, Blank;
    BlankNulFree(e.before);
    BlankNulFree(e.after);
    SyntaxNulFree(e.value);
    Bracketed(e.before, TextOf(e.value), e.after);
  }

  lemma {:induction false} ElementsNulFree(es: seq<Element>)
    requires AreElements(es, true)
    ensures NulFree(ElementsText(es))
    decreases es, 1
  {
    hide NulFree, IsElement, ElementText;
    LiteralsNulFree();
    BraceNulFree();
    if es != [] {
      ElementNulFree(es[0]);
      ElementsNulFree(es[1..]);
      Bracketed(ElementText(es[0]), [COMMA], ElementsText(es[1..]));
    }
  }

  lemma {:induction false} EntriesNulFree(es: seq<Entry>)
    requires AreEntries(es, true)
    ensures NulFree(EntriesText(es))
    decreases es, 1
  {
    hide NulFree, IsElement, ElementText, Blank, AreChars, StringText;
    LiteralsNulFree();
    BraceNulFree();
    if es != [] {
      var e := es[0];
      BlankNulFree(e.before);
      BlankNulFree(e.after);
      StringNulFree(e.key);
      ElementNulFree(e.element);
      Bracketed(e.before, StringText(e.key), e.after);
      JsonPrinter.NulFreeConcat(e.before + StringText(e.key) + e.after, [COLON]);
      JsonPrinter.NulFreeConcat(KeyText(e), ElementText(e.element));
      EntriesNulFree(es[1..]);
      Bracketed(EntryText(e), [COMMA], EntriesText(es[1..]));
    }
  }

  lemma {:induction false} DocumentNulFree(t: Document)
    requires IsElement(t.element, true)
    ensures NulFree(DocumentText(t))
  {
    hide IsElement, ElementText;
    ElementNulFree(t.element);
  }

  /**
   Parse a text of the grammar of RFC 8259. The result is a fresh, well-linked tree, read up to
   where the text's value ends, exactly when the text nests at most 1000 deep, its numbers are at
   most 63 bytes long and its surrogates are paired. The tree then has the value that the text
   denotes, each string up to its first NUL.
   */
  method ParseGrammatical(value: seq<byte>, requireNullTerminated: bool, ghost t: Document)
    returns (item: Node?, parseEnd: nat, ghost s: Shape)
    requires IsElement(t.element, true) && value == DocumentText(t)
    ensures item != null && parseEnd == (if requireNullTerminated then |value| else |value| - |t.element.after|)
            <==> JsonComplete.Fits(t.element.value, 0)
    ensures requireNullTerminated && item != null ==> JsonComplete.Fits(t.element.value, 0)
    ensures item != null ==> s.node == item && Tree(s) && Typed(s) && fresh(Nodes(s))
    ensures JsonComplete.Fits(t.element.value, 0) ==> item != null && Value(s) == AsC(ValueOf(t.element.value))
  {
    hide IsElement, DocumentText, JsonComplete.Fits, Tree, Typed, Value, S.ParseText, AsC, ValueOf;
    DocumentNulFree(t);
    JsonComplete.ParseDocument(t, requireNullTerminated);
    item, parseEnd, s := JsonParser.ParseWithOpts(value, requireNullTerminated);
  }

  /**
   Parse any C string, with a terminator required: the result is a tree exactly when the string
   is a document of the loose grammar that nests at most 1000 deep, with numbers of at most 63
   bytes and paired surrogates. The tree is fresh and well linked, and has the value that each
   document which the string is denotes.
   */
  method ParseExactly(value: seq<byte>) returns (item: Node?, ghost s: Shape)
    requires NulFree(value)
    ensures item != null <==> exists t :: JsonSound.IsDocument(t, value)
    ensures item != null ==> s.node == item && Tree(s) && Typed(s) && fresh(Nodes(s))
    ensures forall t :: JsonSound.IsDocument(t, value) ==> item != null && Value(s) == AsC(ValueOf(t.element.value))
  {
    hide JsonSound.IsDocument, Tree, Typed, Value, S.ParseText, AsC, ValueOf;
    JsonSound.AcceptedExactly(value);
    var parseEnd;
    item, parseEnd, s := JsonParser.ParseWithOpts(value, true);
  }
}
