/**
 Minifying the formatted print of a value gives its unformatted print exactly when no
 string or key that ends in a backslash has formatting white space behind it: the
 minifier takes the closing quote of such a string for an escaped one.
 */
module JsonMinifyPrint {
  import opened Bytes
  import opened JsonValue
  import opened JsonRender
  import opened JsonMinify
  import R = JsonRoundTrip

  /** How far the minifier follows a rendering: to its end, to its end but still inside a string, or not. */
  datatype Following = Clean | Dangling | Lost

  predicate EndsInBackslash(s: seq<byte>) {
    s != [] && s[|s| - 1] == BACKSLASH
  }

  function OfString(s: seq<byte>): Following {
    if EndsInBackslash(s) then Dangling else Clean
  }

  function Follow(t: Json): Following
    decreases t, 1
  {
    match t
    case String(s) => OfString(s)
    case Array(items) => FollowItems(items)
    case Object(members) => FollowMembers(members)
    case _ => Clean
  }

  /** Only the last item of an array may leave the minifier inside a string. */
  function FollowItems(items: seq<Json>): Following
    decreases items, 0
  {
    if items == [] then Clean
    else if |items| == 1 then Follow(items[0])
    else if Follow(items[0]) == Clean then FollowItems(items[1..])
    else Lost
  }

  function FollowMembers(members: seq<Member>): Following
    decreases members, 0
  {
    if members == [] then Clean
    else if OfString(members[0].key) == Clean && Follow(members[0].value) == Clean then FollowMembers(members[1..])
    else Lost
  }

  // ---------- the minifier on pieces of text ----------

  /** What is kept from offset `i` on when the scan is inside a string there. */
  function InString(c: seq<byte>, i: nat): seq<byte>
    requires i <= |c|
  {
    c[i..SpanEnd(c, i)] + Minified(c, SpanEnd(c, i))
  }

  predicate IsPlain(b: byte) {
    !IsBlank(b) && b != SLASH && b != QUOTE
  }

  ghost predicate Plain(s: seq<byte>) {
    forall i :: 0 <= i < |s| ==> IsPlain(s[i])
  }

  lemma {:induction false} BlankDropped(c: seq<byte>, o: nat, ws: seq<byte>)
    requires HasAt(c, o, ws) && Blank(ws)
    ensures Minified(c, o) == Minified(c, o + |ws|)
    decreases ws
  {
    if ws != [] {
      assert ws == [ws[0]] + ws[1..];
      HasAtSplit(c, o, [ws[0]], ws[1..]);
      HasAtIndex(c, o, ws, 0);
      BlankDropped(c, o + 1, ws[1..]);
    }
  }

  lemma {:induction false} PlainByteKept(c: seq<byte>, o: nat)
    requires o < |c| && IsPlain(c[o])
    ensures Minified(c, o) == [c[o]] + Minified(c, o + 1)
  {
  }

  lemma {:induction false} PlainKept(c: seq<byte>, o: nat, s: seq<byte>)
    requires HasAt(c, o, s) && Plain(s)
    ensures Minified(c, o) == s + Minified(c, o + |s|)
    decreases s
  {
    hide Minified;
    if s == [] {
      assert [] + Minified(c, o) == Minified(c, o);
    } else {
      assert s == [s[0]] + s[1..];
      HasAtSplit(c, o, [s[0]], s[1..]);
      HasAtIndex(c, o, s, 0);
      PlainByteKept(c, o);
      PlainKept(c, o + 1, s[1..]);
      assert [s[0]] + (s[1..] + Minified(c, o + |s|)) == s + Minified(c, o + |s|);
    }
  }

  /** Inside a string, any byte that neither ends it nor escapes a quote is kept. */
  lemma {:induction false} InStringKeeps(c: seq<byte>, i: nat)
    requires i < |c| && c[i] != QUOTE && c[i] != BACKSLASH
    ensures InString(c, i) == [c[i]] + InString(c, i + 1)
  {
    var e := SpanEnd(c, i);
    assert SpanEnd(c, i + 1) == e;
    assert c[i..e] == [c[i]] + c[i + 1..e];
    assert ([c[i]] + c[i + 1..e]) + Minified(c, e) == [c[i]] + (c[i + 1..e] + Minified(c, e));
  }

  // ---------- strings ----------

  /** An escape other than a doubled backslash is stepped over whole. */
  lemma SpanEscape(c: seq<byte>, p: nat, b: byte)
    requires b != NUL && b != BACKSLASH && HasAt(c, p, Escape(b))
    ensures p + |Escape(b)| <= |c|
    ensures SpanEnd(c, p) == SpanEnd(c, p + |Escape(b)|)
  {
    hide Escape, HasAt, HexDigit, SpanEnd;
    var x := Escape(b);
    R.EscapeShape(b);
    EscapeSecond(b);
    HasAtBound(c, p, x);
    HasAtIndex(c, p, x, 0);
    SpanStep(c, p);
    if !R.PlainEscape(x, b) {
      HasAtIndex(c, p, x, 1);
      SpanStep(c, p + 1);
      if R.LongEscape(x, b) {
        R.HexRoundTrip(b / 16);
        R.HexRoundTrip(b % 16);
        HasAtIndex(c, p, x, 2);
        HasAtIndex(c, p, x, 3);
        HasAtIndex(c, p, x, 4);
        HasAtIndex(c, p, x, 5);
        SpanStep(c, p + 2);
        SpanStep(c, p + 3);
        SpanStep(c, p + 4);
        SpanStep(c, p + 5);
      }
    }
  }

  lemma EscapeSecond(b: byte)
    requires b != BACKSLASH
    ensures |Escape(b)| == 2 ==> Escape(b)[1] != BACKSLASH && (Escape(b)[1] == QUOTE <==> b == QUOTE)
  {
  }

  /** A doubled backslash is stepped over unless a quote follows, which is then taken as escaped. */
  lemma SpanBackslash(c: seq<byte>, p: nat)
    requires p + 2 < |c| && c[p] == BACKSLASH && c[p + 1] == BACKSLASH
    ensures SpanEnd(c, p) == if c[p + 2] == QUOTE then SpanEnd(c, p + 3) else SpanEnd(c, p + 2)
  {
    SpanStep(c, p);
    SpanStep(c, p + 1);
  }

  lemma EscapeFirst(b: byte)
    ensures Escape(b)[0] != QUOTE
    ensures b == BACKSLASH ==> Escape(b) == [BACKSLASH, BACKSLASH]
  {
  }

  /** The scan over a rendered string body, from `p` to its closing quote at `e`. */
  lemma {:induction false} SpanOfBody(c: seq<byte>, p: nat, e: nat, s: seq<byte>)
    requires NulFree(s) && HasAt(c, p, EscapeAll(s)) && p + |EscapeAll(s)| == e < |c| && c[e] == QUOTE
    ensures SpanEnd(c, p) == if EndsInBackslash(s) then SpanEnd(c, e + 1) else e + 1
    decreases s
  {
    hide HasAt, Escape, SpanEnd, NulFree;
    if s == [] {
      SpanStep(c, p);
    } else {
      var x, rest := Escape(s[0]), s[1..];
      TailNulFree(s);
      HasAtSplit(c, p, x, EscapeAll(rest));
      SpanOfBody(c, p + |x|, e, rest);
      if s[0] != BACKSLASH {
        SpanEscape(c, p, s[0]);
      } else {
        EscapeFirst(s[0]);
        HasAtIndex(c, p, x, 0);
        HasAtIndex(c, p, x, 1);
        SpanBackslash(c, p);
        if rest != [] {
          EscapeFirst(rest[0]);
          HasAtIndex(c, p + 2, EscapeAll(rest), 0);
          assert EscapeAll(rest)[0] == Escape(rest[0])[0];
        }
      }
    }
  }

  lemma TailNulFree(s: seq<byte>)
    requires NulFree(s) && s != []
    ensures s[0] != NUL && NulFree(s[1..])
  {
  }

  /**
   A rendered string is kept byte for byte. The scan is out of it at its closing quote
   unless its last character is a backslash; then it is still inside.
   */
  lemma {:induction false} QuotedKept(c: seq<byte>, o: nat, s: seq<byte>)
    requires NulFree(s) && HasAt(c, o, Quoted(s))
    ensures o + |Quoted(s)| <= |c|
    ensures Minified(c, o) == Quoted(s) + (if EndsInBackslash(s) then InString(c, o + |Quoted(s)|)
                                            else Minified(c, o + |Quoted(s)|))
  {
    hide EscapeAll, HasAt, NulFree, SpanEnd;
    var q, body := Quoted(s), EscapeAll(s);
    var next := o + |q|;
    HasAtBound(c, o, q);
    HasAtSplit(c, o, [QUOTE] + body, [QUOTE]);
    HasAtSplit(c, o, [QUOTE], body);
    HasAtIndex(c, o, [QUOTE], 0);
    HasAtIndex(c, next - 1, [QUOTE], 0);
    SpanOfBody(c, o + 1, next - 1, s);
    assert c[o..next] == q by { SliceOf(c, o, q); }
    var e := SpanEnd(c, o + 1);
    if EndsInBackslash(s) {
      assert c[o..e] == c[o..next] + c[next..e];
      assert (q + c[next..e]) + Minified(c, e) == q + (c[next..e] + Minified(c, e));
    }
  }

  lemma SliceOf(c: seq<byte>, o: nat, s: seq<byte>)
    requires HasAt(c, o, s)
    ensures o + |s| <= |c| && c[o..o + |s|] == s
  {
  }

  // ---------- texts that differ ----------

  ghost predicate Differ(m: seq<byte>, u: seq<byte>) {
    exists k :: 0 <= k < |m| && k < |u| && m[k] != u[k]
  }

  lemma DifferBehind(p: seq<byte>, m: seq<byte>, u: seq<byte>)
    requires Differ(m, u)
    ensures Differ(p + m, p + u)
  {
    var k :| 0 <= k < |m| && k < |u| && m[k] != u[k];
    assert (p + m)[|p| + k] != (p + u)[|p| + k];
  }

  lemma DifferLonger(m: seq<byte>, u: seq<byte>, x: seq<byte>)
    requires Differ(m, u)
    ensures Differ(m, u + x)
  {
    var k :| 0 <= k < |m| && k < |u| && m[k] != u[k];
    assert (u + x)[k] == u[k];
  }

  lemma DifferHere(p: seq<byte>, x: byte, m: seq<byte>, u: seq<byte>)
    requires u != [] && u[0] != x
    ensures Differ(p + ([x] + m), p + u)
  {
    assert (p + ([x] + m))[|p|] != (p + u)[|p|];
  }

  // ---------- values ----------

  /** What the minifier makes of a text from `o` to `next` whose unformatted form is `u`. */
  ghost predicate Makes(f: Following, c: seq<byte>, o: nat, next: nat, u: seq<byte>) {
    && o <= next <= |c|
    && match f
       case Clean => Minified(c, o) == u + Minified(c, next)
       case Dangling => Minified(c, o) == u + InString(c, next)
       case Lost => Differ(Minified(c, o), u)
  }

  lemma {:induction false} MakesPlain(c: seq<byte>, o: nat, s: seq<byte>)
    requires HasAt(c, o, s) && Plain(s)
    ensures Makes(Clean, c, o, o + |s|, s)
  {
    HasAtBound(c, o, s);
    PlainKept(c, o, s);
  }

  /** A clean piece in front of any other. */
  lemma {:induction false} MakesAfter(f: Following, c: seq<byte>, o: nat, mid: nat, next: nat, p: seq<byte>, u: seq<byte>)
    requires Makes(Clean, c, o, mid, p) && Makes(f, c, mid, next, u)
    ensures Makes(f, c, o, next, p + u)
  {
    hide Minified, InString;
    match f
    case Clean => assert p + (u + Minified(c, next)) == p + u + Minified(c, next);
    case Dangling => assert p + (u + InString(c, next)) == p + u + InString(c, next);
    case Lost => DifferBehind(p, Minified(c, mid), u);
  }

  /** A byte that is neither blank nor special behind any piece. */
  lemma {:induction false} MakesThen(f: Following, c: seq<byte>, o: nat, next: nat, u: seq<byte>, b: byte)
    requires Makes(f, c, o, next, u) && HasAt(c, next, [b]) && IsPlain(b) && b != BACKSLASH
    ensures Makes(f, c, o, next + 1, u + [b])
  {
    hide InString, HasAt;
    HasAtIndex(c, next, [b], 0);
    HasAtBound(c, next, [b]);
    match f
    case Clean => assert u + ([b] + Minified(c, next + 1)) == u + [b] + Minified(c, next + 1);
    case Dangling =>
      InStringKeeps(c, next);
      assert u + ([b] + InString(c, next + 1)) == u + [b] + InString(c, next + 1);
    case Lost => DifferLonger(Minified(c, o), u, [b]);
  }

  /** White space in front of a piece is dropped. */
  lemma {:induction false} MakesBlank(f: Following, c: seq<byte>, o: nat, next: nat, ws: seq<byte>, u: seq<byte>)
    requires HasAt(c, o, ws) && Blank(ws) && Makes(f, c, o + |ws|, next, u)
    ensures Makes(f, c, o, next, u)
  {
    BlankDropped(c, o, ws);
  }

  /** White space inside a string that should have ended is kept, and so the texts differ. */
  lemma {:induction false} KeptBlankDiffers(c: seq<byte>, o: nat, next: nat, p: seq<byte>, b: byte, u: seq<byte>)
    requires Makes(Dangling, c, o, next, p) && HasAt(c, next, [b]) && b != QUOTE && b != BACKSLASH
    requires u != [] && u[0] != b
    ensures Differ(Minified(c, o), p + u)
  {
    hide InString;
    HasAtIndex(c, next, [b], 0);
    HasAtBound(c, next, [b]);
    InStringKeeps(c, next);
    DifferHere(p, b, InString(c, next + 1), u);
  }

  lemma {:induction false} MinifyRendered(t: Json, d: nat, c: seq<byte>, o: nat)
    requires Printable(t) && HasAt(c, o, Render(t, true, d))
    ensures Makes(Follow(t), c, o, o + |Render(t, true, d)|, Render(t, false, d))
    decreases t, 1
  {
    hide HasAt, Minified, InString, RenderItems, RenderMembers, FollowItems, FollowMembers, PrintableItems,
         PrintableMembers, Digits, NulFree, Quoted;
    match t
    case Null => MakesPlain(c, o, NULL_TEXT);
    case False => MakesPlain(c, o, FALSE_TEXT);
    case True => MakesPlain(c, o, TRUE_TEXT);
    case Number(v) => MakesPlain(c, o, Decimal(v.Floor));
    case String(s) => QuotedKept(c, o, s);
    case Array(items) => MinifyArray(items, d, c, o);
    case Object(members) => MinifyObject(members, d, c, o);
  }

  lemma {:induction false} MinifyArray(items: seq<Json>, d: nat, c: seq<byte>, o: nat)
    requires PrintableItems(items) && HasAt(c, o, Render(Array(items), true, d))
    ensures Makes(FollowItems(items), c, o, o + |Render(Array(items), true, d)|, Render(Array(items), false, d))
    decreases items, 3
  {
    hide HasAt, Makes, RenderItems, FollowItems, PrintableItems;
    var body, u := RenderItems(items, true, d + 1), RenderItems(items, false, d + 1);
    HasAtSplit(c, o, [LBRACKET] + body, [RBRACKET]);
    HasAtSplit(c, o, [LBRACKET], body);
    MakesPlain(c, o, [LBRACKET]);
    MinifyItems(items, d + 1, c, o + 1);
    MakesAfter(FollowItems(items), c, o, o + 1, o + 1 + |body|, [LBRACKET], u);
    MakesThen(FollowItems(items), c, o, o + 1 + |body|, [LBRACKET] + u, RBRACKET);
  }

  lemma {:induction false} MinifyItems(items: seq<Json>, d: nat, c: seq<byte>, o: nat)
    requires PrintableItems(items) && HasAt(c, o, RenderItems(items, true, d))
    ensures Makes(FollowItems(items), c, o, o + |RenderItems(items, true, d)|, RenderItems(items, false, d))
    decreases items, 2
  {
    hide HasAt, Makes, Render, Follow, Printable;
    if items == [] {
      NothingMade(c, o);
    } else if |items| == 1 {
      MinifyRendered(items[0], d, c, o);
    } else {
      var first, u := Render(items[0], true, d), Render(items[0], false, d);
      var tail, v := RenderItems(items[1..], true, d), RenderItems(items[1..], false, d);
      assert RenderItems(items, true, d) == first + ([COMMA] + ([SPACE] + tail));
      assert RenderItems(items, false, d) == u + [COMMA] + v;
      HasAtSplit(c, o, first, [COMMA] + ([SPACE] + tail));
      var n := o + |first|;
      HasAtSplit(c, n, [COMMA], [SPACE] + tail);
      HasAtSplit(c, n + 1, [SPACE], tail);
      MinifyRendered(items[0], d, c, o);
      MakesThen(Follow(items[0]), c, o, n, u, COMMA);
      var next := n + 2 + |tail|;
      HasAtBound(c, n + 2, tail);
      if Follow(items[0]) == Clean {
        MinifyItems(items[1..], d, c, n + 2);
        MakesBlank(FollowItems(items[1..]), c, n + 1, next, [SPACE], v);
        MakesAfter(FollowItems(items[1..]), c, o, n + 1, next, u + [COMMA], v);
      } else {
        R.ItemsStart(items[1..], false, d);
        LostItem(Follow(items[0]), c, o, n + 1, next, u + [COMMA], SPACE, v);
      }
    }
  }

  lemma NothingMade(c: seq<byte>, o: nat)
    requires HasAt(c, o, [])
    ensures Makes(Clean, c, o, o, [])
  {
    assert [] + Minified(c, o) == Minified(c, o);
  }

  lemma {:induction false} LostItem(f: Following, c: seq<byte>, o: nat, n: nat, next: nat, p: seq<byte>, b: byte, v: seq<byte>)
    requires f != Clean && Makes(f, c, o, n, p) && n <= next <= |c|
    requires HasAt(c, n, [b]) && b != QUOTE && b != BACKSLASH && v != [] && v[0] != b
    ensures Makes(Lost, c, o, next, p + v)
  {
    hide Minified, InString, HasAt;
    if f == Dangling {
      KeptBlankDiffers(c, o, n, p, b, v);
    } else {
      DifferLonger(Minified(c, o), p, v);
    }
  }

  // ---------- objects ----------

  lemma {:induction false} MakesThenBlank(c: seq<byte>, o: nat, n: nat, u: seq<byte>, ws: seq<byte>)
    requires Makes(Clean, c, o, n, u) && HasAt(c, n, ws) && Blank(ws)
    ensures Makes(Clean, c, o, n + |ws|, u)
  {
    hide Minified;
    HasAtBound(c, n, ws);
    BlankDropped(c, n, ws);
  }

  lemma IndentBlank(d: nat)
    ensures Blank(Indent(true, d)) && Indent(false, d) == []
  {
  }

  /** The name and colon of a member. */
  lemma {:induction false} MinifyName(key: seq<byte>, d: nat, c: seq<byte>, o: nat)
    requires NulFree(key) && HasAt(c, o, Indent(true, d)) && HasAt(c, o + |Indent(true, d)|, Quoted(key))
    requires HasAt(c, o + |Indent(true, d)| + |Quoted(key)|, [COLON])
    ensures Makes(OfString(key), c, o, o + |Indent(true, d)| + |Quoted(key)| + 1, Quoted(key) + [COLON])
  {
    hide HasAt, Indent, Quoted, NulFree, Minified, InString;
    IndentBlank(d);
    var n := o + |Indent(true, d)|;
    QuotedKept(c, n, key);
    MakesBlank(OfString(key), c, o, n + |Quoted(key)|, Indent(true, d), Quoted(key));
    MakesThen(OfString(key), c, o, n + |Quoted(key)|, Quoted(key), COLON);
  }

  /** The end of a member: its comma if it has one, and the line end. */
  lemma {:induction false} MinifyEnd(f: Following, c: seq<byte>, o: nat, n: nat, u: seq<byte>, last: bool, w: seq<byte>)
    requires Makes(f, c, o, n, u) && HasAt(c, n, MemberEnd(true, last)) && w != [] && w[0] != NEWLINE
    ensures f == Clean ==> Makes(Clean, c, o, n + |MemberEnd(true, last)|, u + MemberEnd(false, last))
    ensures f != Clean ==> Makes(Lost, c, o, n + |MemberEnd(true, last)|, u + MemberEnd(false, last) + w)
  {
    hide HasAt, Makes;
    var m, v := n, u;
    if last {
      assert MemberEnd(true, last) == [NEWLINE];
      assert u + MemberEnd(false, last) == u;
    } else {
      assert MemberEnd(true, last) == [COMMA] + [NEWLINE];
      HasAtSplit(c, n, [COMMA], [NEWLINE]);
      MakesThen(f, c, o, n, u, COMMA);
      m, v := n + 1, u + [COMMA];
      assert MemberEnd(false, last) == [COMMA];
    }
    HasAtBound(c, m, [NEWLINE]);
    if f == Clean {
      MakesThenBlank(c, o, m, v, [NEWLINE]);
    } else {
      LostItem(f, c, o, m, m + 1, v, NEWLINE, w);
    }
  }

  /** One member, in front of unformatted text `w` that does not start with a line end. */
  lemma {:induction false} MinifyMember(m: Member, d: nat, last: bool, c: seq<byte>, o: nat, w: seq<byte>)
    requires NulFree(m.key) && Printable(m.value) && HasAt(c, o, RenderMember(m, true, d, last))
    requires w != [] && w[0] != NEWLINE
    ensures var clean := OfString(m.key) == Clean && Follow(m.value) == Clean;
            var next, u := o + |RenderMember(m, true, d, last)|, RenderMember(m, false, d, last);
            if clean then Makes(Clean, c, o, next, u) else Makes(Lost, c, o, next, u + w)
    decreases m, 4
  {
    hide HasAt, Makes, Quoted, Render, Indent, NulFree, Printable, Follow, MemberEnd;
    var indent, q := Indent(true, d), Quoted(m.key);
    var text, v := Render(m.value, true, d), Render(m.value, false, d);
    var end, end' := MemberEnd(true, last), MemberEnd(false, last);
    IndentBlank(d);
    MemberTexts(m, d, last, w);
    HasAtSplit(c, o, indent + q + [COLON], [TAB] + (text + end));
    HasAtSplit(c, o, indent + q, [COLON]);
    HasAtSplit(c, o, indent, q);
    var n := o + |indent + q| + 1;
    HasAtSplit(c, n, [TAB], text + end);
    HasAtSplit(c, n + 1, text, end);
    HasAtBound(c, n + 1 + |text|, end);
    MinifyName(m.key, d, c, o);
    if OfString(m.key) == Clean {
      MinifyRendered(m.value, d, c, n + 1);
      MakesBlank(Follow(m.value), c, n, n + 1 + |text|, [TAB], v);
      MakesAfter(Follow(m.value), c, o, n, n + 1 + |text|, q + [COLON], v);
      MinifyEnd(Follow(m.value), c, o, n + 1 + |text|, q + [COLON] + v, last, w);
    } else {
      R.FirstByte(m.value, false, d);
      LostItem(OfString(m.key), c, o, n, n + 1 + |text| + |end|, q + [COLON], TAB, v + end' + w);
    }
  }

  lemma MemberTexts(m: Member, d: nat, last: bool, w: seq<byte>)
    ensures var text, v := Render(m.value, true, d), Render(m.value, false, d);
            && RenderMember(m, true, d, last)
               == (Indent(true, d) + Quoted(m.key) + [COLON]) + ([TAB] + (text + MemberEnd(true, last)))
            && RenderMember(m, false, d, last) == Quoted(m.key) + [COLON] + v + MemberEnd(false, last)
            && RenderMember(m, false, d, last) + w == Quoted(m.key) + [COLON] + (v + MemberEnd(false, last) + w)
  {
    hide Render, Quoted, Tabs, MemberEnd;
    var text, v := Render(m.value, true, d), Render(m.value, false, d);
    var indent, q := Indent(true, d), Quoted(m.key);
    assert [COLON, TAB] == [COLON] + [TAB];
    assert indent + q + ([COLON] + [TAB]) + text + MemberEnd(true, last)
           == (indent + q + [COLON]) + ([TAB] + (text + MemberEnd(true, last)));
    assert [] + q == q;
  }

  lemma {:induction false} MinifyMembers(members: seq<Member>, d: nat, c: seq<byte>, o: nat)
    requires PrintableMembers(members) && HasAt(c, o, RenderMembers(members, true, d))
    ensures var next, u := o + |RenderMembers(members, true, d)|, RenderMembers(members, false, d);
            if FollowMembers(members) == Clean then Makes(Clean, c, o, next, u)
            else Makes(Lost, c, o, next, u + [RBRACE])
    decreases members, 2
  {
    hide HasAt, Makes, RenderMember, Follow, Printable, NulFree;
    if members == [] {
      NothingMade(c, o);
    } else {
      var m, last := members[0], |members| == 1;
      var head, u := RenderMember(m, true, d, last), RenderMember(m, false, d, last);
      var tail, v := RenderMembers(members[1..], true, d), RenderMembers(members[1..], false, d);
      HasAtSplit(c, o, head, tail);
      HasAtBound(c, o + |head|, tail);
      MembersRest(members[1..], d);
      MinifyMember(m, d, last, c, o, v + [RBRACE]);
      assert u + v + [RBRACE] == u + (v + [RBRACE]);
      var n, next := o + |head|, o + |head| + |tail|;
      if OfString(m.key) == Clean && Follow(m.value) == Clean {
        MinifyMembers(members[1..], d, c, n);
        if FollowMembers(members[1..]) == Clean {
          MakesAfter(Clean, c, o, n, next, u, v);
        } else {
          MakesAfter(Lost, c, o, n, next, u, v + [RBRACE]);
        }
      } else {
        StillLost(c, o, n, next, u + (v + [RBRACE]));
      }
    }
  }

  lemma StillLost(c: seq<byte>, o: nat, n: nat, next: nat, u: seq<byte>)
    requires Makes(Lost, c, o, n, u) && n <= next <= |c|
    ensures Makes(Lost, c, o, next, u)
  {
  }

  lemma MembersRest(members: seq<Member>, d: nat)
    ensures var w := RenderMembers(members, false, d) + [RBRACE]; w != [] && w[0] != NEWLINE
  {
    hide Render, MemberEnd, KeySeparator;
    if members != [] {
      assert RenderMember(members[0], false, d, |members| == 1)[0] == QUOTE;
    }
  }

  lemma {:induction false} MinifyObject(members: seq<Member>, d: nat, c: seq<byte>, o: nat)
    requires PrintableMembers(members) && HasAt(c, o, Render(Object(members), true, d))
    ensures Makes(FollowMembers(members), c, o, o + |Render(Object(members), true, d)|, Render(Object(members), false, d))
    decreases members, 3
  {
    hide HasAt, Makes, RenderMembers, FollowMembers, PrintableMembers, Tabs, Indent, Render;
    var body, u, close := RenderMembers(members, true, d + 1), RenderMembers(members, false, d + 1), Indent(true, d);
    ObjectTexts(members, d);
    FollowMembersKinds(members);
    var f := FollowMembers(members);
    HasAtSplit(c, o, [LBRACE], [NEWLINE] + (body + (close + [RBRACE])));
    HasAtSplit(c, o + 1, [NEWLINE], body + (close + [RBRACE]));
    HasAtSplit(c, o + 2, body, close + [RBRACE]);
    var n := o + 2 + |body|;
    HasAtSplit(c, n, close, [RBRACE]);
    HasAtBound(c, n + |close|, [RBRACE]);
    IndentBlank(d);
    MakesPlain(c, o, [LBRACE]);
    MakesThenBlank(c, o, o + 1, [LBRACE], [NEWLINE]);
    MinifyMembers(members, d + 1, c, o + 2);
    if f == Clean {
      MakesAfter(Clean, c, o, o + 2, n, [LBRACE], u);
      MakesThenBlank(c, o, n, [LBRACE] + u, close);
      MakesThen(Clean, c, o, n + |close|, [LBRACE] + u, RBRACE);
    } else {
      MakesAfter(Lost, c, o, o + 2, n, [LBRACE], u + [RBRACE]);
      assert [LBRACE] + (u + [RBRACE]) == [LBRACE] + u + [RBRACE];
      StillLost(c, o, n, n + |close| + 1, [LBRACE] + u + [RBRACE]);
    }
  }

  lemma FollowMembersKinds(members: seq<Member>)
    ensures FollowMembers(members) != Dangling
  {
  }

  lemma ObjectTexts(members: seq<Member>, d: nat)
    ensures Render(Object(members), true, d)
            == [LBRACE] + ([NEWLINE] + (RenderMembers(members, true, d + 1) + (Indent(true, d) + [RBRACE])))
    ensures Render(Object(members), false, d) == [LBRACE] + RenderMembers(members, false, d + 1) + [RBRACE]
  {
    hide RenderMembers, Tabs;
    var body, close := RenderMembers(members, true, d + 1), Indent(true, d);
    assert [LBRACE, NEWLINE] == [LBRACE] + [NEWLINE];
    assert ([LBRACE] + [NEWLINE]) + body + close + [RBRACE] == [LBRACE] + ([NEWLINE] + (body + (close + [RBRACE])));
    var u := RenderMembers(members, false, d + 1);
    assert [LBRACE] + u + [] + [RBRACE] == [LBRACE] + u + [RBRACE];
  }

  // ---------- the theorem ----------

  /** Minifying a formatted print restores the unformatted print exactly for the values `Follow` does not lose. */
  lemma {:induction false} MinifyRestores(t: Json)
    requires Printable(t)
    ensures Minified(Render(t, true, 0), 0) == Render(t, false, 0) <==> Follow(t) != Lost
  {
    hide Render, Printable, Follow, Minified, SpanEnd;
    var c, u := Render(t, true, 0), Render(t, false, 0);
    assert HasAt(c, 0, c);
    MinifyRendered(t, 0, c, 0);
    NothingLeft(c);
    SpanAtEnd(c);
    assert u + [] == u;
    assert c[|c|..|c|] + [] == [];
  }

  /** The smallest kind of value that does not survive: a lone backslash in front of another item. */
  lemma {:induction false} MinifyBreaks()
    ensures var t := Array([String([BACKSLASH]), Null]);
            Printable(t) && Minified(Render(t, true, 0), 0) != Render(t, false, 0)
  {
    var t := Array([String([BACKSLASH]), Null]);
    var rest: seq<Json> := [String([BACKSLASH]), Null][1..];
    assert rest == [Null] && rest[1..] == [];
    assert Printable(rest[0]) && PrintableItems(rest[1..]);
    assert PrintableItems(rest);
    assert NulFree([BACKSLASH]) && PrintableItems(t.items);
    assert Follow(t.items[0]) == Dangling;
    assert Follow(t) == Lost;
    MinifyRestores(t);
  }

  lemma SpanAtEnd(c: seq<byte>)
    ensures SpanEnd(c, |c|) == |c|
  {
  }

  /** No string and no key of the value ends in a backslash. */
  predicate NoTrailingBackslash(t: Json)
    decreases t, 1
  {
    match t
    case String(s) => !EndsInBackslash(s)
    case Array(items) => forall i :: 0 <= i < |items| ==> NoTrailingBackslash(items[i])
    case Object(members) =>
      forall i :: 0 <= i < |members| ==> !EndsInBackslash(members[i].key) && NoTrailingBackslash(members[i].value)
    case _ => true
  }

  /** In particular every value without such strings survives. */
  lemma {:induction false} MinifyRestoresPlain(t: Json)
    requires Printable(t) && NoTrailingBackslash(t)
    ensures Minified(Render(t, true, 0), 0) == Render(t, false, 0)
  {
    FollowsPlain(t);
    MinifyRestores(t);
  }

  lemma {:induction false} FollowsPlain(t: Json)
    requires NoTrailingBackslash(t)
    ensures Follow(t) == Clean
    decreases t, 1
  {
    match t
    case Array(items) => FollowsPlainItems(items);
    case Object(members) => FollowsPlainMembers(members);
    case _ =>
  }

  lemma {:induction false} FollowsPlainItems(items: seq<Json>)
    requires forall i :: 0 <= i < |items| ==> NoTrailingBackslash(items[i])
    ensures FollowItems(items) == Clean
    decreases items, 0
  {
    if items != [] {
      FollowsPlain(items[0]);
      FollowsPlainItems(items[1..]);
    }
  }

  lemma {:induction false} FollowsPlainMembers(members: seq<Member>)
    requires forall i :: 0 <= i < |members| ==> !EndsInBackslash(members[i].key) && NoTrailingBackslash(members[i].value)
    ensures FollowMembers(members) == Clean
    decreases members, 0
  {
    if members != [] {
      FollowsPlain(members[0].value);
      FollowsPlainMembers(members[1..]);
    }
  }
}
