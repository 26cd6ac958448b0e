/** The recursive half of the cJSON printer: values, arrays, objects and the public entry points. */
module JsonTreePrinter {
  import opened Bytes
  import opened JsonRender
  import opened JsonNode
  import opened JsonTree
  import opened JsonPrinter
  import V = JsonValue

  twostate predicate Appended(p: PrintBuffer, ok: bool, needed: int, text: seq<byte>)
    requires old(p.Valid())
    reads p, p.buffer
  {
    && p.Valid()
    && (ok <==> old(p.offset) + needed + 1 <= old(p.Capacity()))
    && (ok ==> p.Done() == old(p.Done()) + text && p.depth == old(p.depth))
    && (p.noalloc ==> p.buffer == old(p.buffer) && p.length == old(p.length))
    && (p.buffer == old(p.buffer) || fresh(p.buffer))
  }

  /** Reserve `needed` bytes, write `text` there and step over it. */
  method Append(p: PrintBuffer, needed: nat, text: seq<byte>) returns (ok: bool)
    requires p.Valid() && |text| <= needed
    modifies p, p.buffer
    ensures Appended(p, ok, needed, text)
  {
    ok := p.Ensure(needed);
    if ok {
      p.Put(p.offset, text);
      p.offset := p.offset + |text|;
    }
  }

  method PrintValue(item: Node, p: PrintBuffer, ghost s: Shape) returns (ok: bool)
    requires s.node == item && Tree(s) && Typed(s) && V.Printable(Value(s)) && p.Valid()
    modifies p, p.buffer
    ensures Printed(p, ok, old(Render(Value(s), p.format, p.depth)))
    decreases s, 3
  {
    match item.kind
    case Null => ok := PrintText(p, NULL_TEXT);
    case False => ok := PrintText(p, FALSE_TEXT);
    case True => ok := PrintText(p, TRUE_TEXT);
    case Number => ok := PrintNumber(item.valuedouble, p);
    case String => ok := PrintStringPtr(item.valuestring, p);
    case Array => ok := PrintArray(item, p, s);
    case Object => ok := PrintObject(item, p, s);
  }

  // ---------- arrays ----------

  /** One item of an array and the separator behind it. */
  method PrintItem(current: Node, p: PrintBuffer, ghost kid: Shape, ghost last: bool) returns (ok: bool)
    requires kid.node == current && Tree(kid) && Typed(kid) && V.Printable(Value(kid)) && p.Valid()
    requires last <==> current.next == null
    modifies p, p.buffer
    ensures var text := old(Render(Value(kid), p.format, p.depth)) + (if last then [] else ItemSeparator(p.format));
            Appended(p, ok, |text| + 1, text)
    decreases kid, 4
  {
    hide Render, Tree, Typed, V.Printable, Value;
    ShapeAllocated(kid);
    ghost var text := Render(Value(kid), p.format, p.depth);
    ok := PrintValue(current, p, kid);
    if !ok {
      return;
    }
    p.UpdateOffset(old(p.Done()) + text);
    if current.next != null {
      var length := if p.format then 2 else 1;
      ok := Append(p, length + 1, ItemSeparator(p.format));
      assert old(p.Done()) + text + ItemSeparator(p.format) == old(p.Done()) + (text + ItemSeparator(p.format));
    } else {
      assert text + [] == text;
    }
  }

  lemma {:induction false} ItemsRendered(vs: seq<V.Json>, fmt: bool, d: nat)
    requires vs != []
    ensures RenderItems(vs, fmt, d)
            == Render(vs[0], fmt, d) + (if |vs| == 1 then [] else ItemSeparator(fmt)) + RenderItems(vs[1..], fmt, d)
  {
    hide Render;
    if |vs| == 1 {
      assert RenderItems(vs[1..], fmt, d) == [];
    }
  }

  /** `text` was appended, or it could not have been. */
  twostate predicate Extended(p: PrintBuffer, ok: bool, text: seq<byte>)
    requires old(p.Valid())
    reads p, p.buffer
  {
    && p.Valid()
    && (ok ==> p.Done() == old(p.Done()) + text && p.depth == old(p.depth))
    && (!ok ==> !old(Fits(p, text)))
    && (p.noalloc ==> p.buffer == old(p.buffer) && p.length == old(p.length))
    && (p.buffer == old(p.buffer) || fresh(p.buffer))
  }

  lemma {:induction false} ItemsStep(before: seq<byte>, vs: seq<V.Json>, fmt: bool, d: nat)
    requires vs != [] && V.PrintableItems(vs)
    ensures var text := Render(vs[0], fmt, d) + (if |vs| == 1 then [] else ItemSeparator(fmt));
            && before + RenderItems(vs, fmt, d) == (before + text) + RenderItems(vs[1..], fmt, d)
            && |RenderItems(vs, fmt, d)| >= |text|
    ensures V.Printable(vs[0]) && V.PrintableItems(vs[1..])
  {
    hide Render, RenderItems;
    ItemsRendered(vs, fmt, d);
    var text := Render(vs[0], fmt, d) + (if |vs| == 1 then [] else ItemSeparator(fmt));
    assert before + (text + RenderItems(vs[1..], fmt, d)) == (before + text) + RenderItems(vs[1..], fmt, d);
  }

  /** The tree is there, with these children's values. */
  ghost predicate Intact(s: Shape, vs: seq<V.Json>, ms: seq<V.Member>)
    reads Nodes(s), NodesOf(s.kids)
  {
    Tree(s) && Typed(s) && Values(s.kids) == vs && Members(s.kids) == ms
  }

  lemma {:induction false} IntactNow(s: Shape)
    requires Tree(s) && Typed(s)
    ensures Intact(s, Values(s.kids), Members(s.kids))
  {
    hide Tree, Typed, Values, Members;
  }

  lemma {:induction false} KidIntact(s: Shape, vs: seq<V.Json>, ms: seq<V.Member>, i: nat)
    requires Intact(s, vs, ms) && i < |s.kids|
    ensures var kid := s.kids[i];
            && kid < s && Tree(kid) && Typed(kid) && |vs| == |ms| == |s.kids|
            && vs[i] == Value(kid) && ms[i] == V.Member(Text(kid.node.key), Value(kid))
            && kid.node.next == if i + 1 < |s.kids| then s.kids[i + 1].node else null
  {
    hide Tree, Typed, Value, Values, Members;
    KidAt(s, i);
  }

  /** What the walk over a tree's children finds at child `i`. */
  lemma {:induction false} KidAt(s: Shape, i: nat)
    requires Tree(s) && Typed(s) && i < |s.kids|
    ensures var kid := s.kids[i];
            && kid < s && Tree(kid) && Typed(kid)
            && Values(s.kids)[i] == Value(kid)
            && Members(s.kids)[i] == V.Member(Text(kid.node.key), Value(kid))
            && kid.node.next == if i + 1 < |s.kids| then s.kids[i + 1].node else null
  {
    hide Tree, Value, Values, Members;
    ChildAt(s, i);
    ValuesAt(s.kids, i);
    TypedAt(s.kids, i);
  }

  lemma {:induction false} TypedAt(kids: seq<Shape>, i: nat)
    requires TypedAll(kids) && i < |kids|
    ensures Typed(kids[i])
    decreases i
  {
    hide Typed;
    if i > 0 {
      TypedAt(kids[1..], i - 1);
    }
  }

  lemma {:induction false} ValuesAt(kids: seq<Shape>, i: nat)
    requires i < |kids|
    ensures Values(kids)[i] == Value(kids[i])
    ensures Members(kids)[i] == V.Member(Text(kids[i].node.key), Value(kids[i]))
    decreases i
  {
    hide Value;
    if i > 0 {
      ValuesAt(kids[1..], i - 1);
    }
  }

  /** The loop over the items of an array. */
  method PrintItems(item: Node, p: PrintBuffer, ghost s: Shape) returns (ok: bool)
    requires s.node == item && Tree(s) && Typed(s) && V.PrintableItems(Values(s.kids)) && p.Valid()
    modifies p, p.buffer
    ensures Extended(p, ok, old(RenderItems(Values(s.kids), p.format, p.depth)))
    decreases s, 0
  {
    hide Tree, Typed, Value, Values, Nodes, NodesOf, V.Printable, V.PrintableItems, Render, RenderItems,
         Members, PrintBuffer.Done, Intact;
    ghost var vs, ms, d, cap := Values(s.kids), Members(s.kids), p.depth, p.Capacity();
    ghost var target := p.Done() + RenderItems(vs, p.format, d);
    ShapeAllocated(s);
    IntactNow(s);
    FirstChild(s);
    var current := item.child;
    ghost var i := 0;
    assert vs[0..] == vs;
    while current != null
      invariant p.Valid() && p.depth == d && p.Capacity() == cap
      invariant p.buffer == old(p.buffer) || fresh(p.buffer)
      invariant p.noalloc ==> p.buffer == old(p.buffer) && p.length == old(p.length)
      invariant i <= |vs| && current == (if i < |vs| then s.kids[i].node else null)
      invariant Intact(s, vs, ms) && V.PrintableItems(vs[i..])
      invariant target == p.Done() + RenderItems(vs[i..], p.format, d)
      decreases |vs| - i
    {
      KidIntact(s, vs, ms, i);
      ItemsStep(p.Done(), vs[i..], p.format, d);
      assert vs[i..][1..] == vs[i + 1..];
      ok := PrintItem(current, p, s.kids[i], i + 1 == |vs|);
      if !ok {
        return;
      }
      KidIntact(s, vs, ms, i);
      current := current.next;
      i := i + 1;
    }
    NoMore(p.format, d);
    assert vs[i..] == [] && p.Done() + [] == p.Done();
    ok := true;
  }

  method PrintArray(item: Node, p: PrintBuffer, ghost s: Shape) returns (ok: bool)
    requires s.node == item && Tree(s) && Typed(s) && V.Printable(Value(s)) && p.Valid() && item.kind == Array
    modifies p, p.buffer
    ensures Printed(p, ok, old(Render(Value(s), p.format, p.depth)))
    decreases s, 2
  {
    hide Tree, Typed, Value, Values, V.Printable, V.PrintableItems, Render, RenderItems, PrintBuffer.Holds,
         PrintBuffer.Done;
    ArrayText(s, p.format, p.depth);
    ShapeAllocated(s);
    ghost var done, body := p.Done(), RenderItems(Values(s.kids), p.format, p.depth + 1);
    ok := Append(p, 1, [LBRACKET]);
    if !ok {
      return;
    }
    p.depth := p.depth + 1;
    ok := PrintArrayRest(item, p, s);
    Concat3(done, [LBRACKET], body, [RBRACKET]);
  }

  /** One level down, `text` was printed with its terminator, exactly when that fits, and the level was left. */
  twostate predicate Closed(p: PrintBuffer, ok: bool, text: seq<byte>)
    requires old(p.Valid())
    reads p, p.buffer
  {
    && p.Valid()
    && (ok <==> old(Fits(p, text)))
    && (ok ==> p.Holds(old(p.Done()) + text) && p.depth + 1 == old(p.depth))
    && (p.noalloc ==> p.buffer == old(p.buffer) && p.length == old(p.length))
    && (p.buffer == old(p.buffer) || fresh(p.buffer))
  }

  /** The items of an array and the bracket behind them. */
  method PrintArrayRest(item: Node, p: PrintBuffer, ghost s: Shape) returns (ok: bool)
    requires s.node == item && Tree(s) && Typed(s) && V.PrintableItems(Values(s.kids)) && p.Valid() && p.depth > 0
    modifies p, p.buffer
    ensures Closed(p, ok, old(RenderItems(Values(s.kids), p.format, p.depth)) + [RBRACKET])
    decreases s, 1
  {
    hide Tree, Typed, Value, Values, V.Printable, V.PrintableItems, Render, RenderItems, PrintBuffer.Holds,
         PrintBuffer.Done;
    ghost var done, body := p.Done(), RenderItems(Values(s.kids), p.format, p.depth);
    ok := PrintItems(item, p, s);
    if !ok {
      return;
    }
    ok := PrintText(p, [RBRACKET]);
    if ok {
      p.depth := p.depth - 1;
      assert done + body + [RBRACKET] == done + (body + [RBRACKET]);
    }
  }

  lemma {:induction false} NoMore(fmt: bool, d: nat)
    ensures Values([]) == [] && Members([]) == []
    ensures RenderItems([], fmt, d) == [] && RenderMembers([], fmt, d) == []
  {
  }

  lemma {:induction false} Concat3(done: seq<byte>, a: seq<byte>, b: seq<byte>, c: seq<byte>)
    ensures (done + a) + (b + c) == done + (a + b + c)
  {
  }

  lemma {:induction false} ArrayText(s: Shape, fmt: bool, depth: nat)
    requires s.node.kind == Array
    ensures Value(s) == V.Array(Values(s.kids))
    ensures Render(Value(s), fmt, depth) == [LBRACKET] + RenderItems(Values(s.kids), fmt, depth + 1) + [RBRACKET]
    ensures V.Printable(Value(s)) ==> V.PrintableItems(Values(s.kids))
  {
    hide Values;
  }

  // ---------- objects ----------

  lemma {:induction false} MemberText(m: V.Member, fmt: bool, d: nat, last: bool, done: seq<byte>)
    ensures var indent, key, sep := Indent(fmt, d), Quoted(m.key), KeySeparator(fmt);
            var value, end := Render(m.value, fmt, d), MemberEnd(fmt, last);
            && done + RenderMember(m, fmt, d, last) == done + (indent + key + sep) + value + end
            && |RenderMember(m, fmt, d, last)| == |indent| + |key| + |sep| + |value| + |end|
  {
    hide Render, Quoted, Tabs;
    var indent, key, sep := Indent(fmt, d), Quoted(m.key), KeySeparator(fmt);
    var value, end := Render(m.value, fmt, d), MemberEnd(fmt, last);
    assert RenderMember(m, fmt, d, last) == indent + key + sep + value + end;
    assert done + (indent + key + sep + value + end) == done + (indent + key + sep) + value + end;
  }

  /** The indentation of one member. */
  method PrintIndent(p: PrintBuffer) returns (ok: bool)
    requires p.Valid()
    modifies p, p.buffer
    ensures Extended(p, ok, old(Indent(p.format, p.depth)))
  {
    hide Tabs, PrintBuffer.Done;
    ok := true;
    if p.format {
      ok := Append(p, p.depth, Tabs(p.depth));
    } else {
      assert p.Done() + [] == p.Done();
    }
  }

  /** The indentation, name and colon of one member. */
  method PrintName(current: Node, p: PrintBuffer) returns (ok: bool)
    requires NulFree(Text(current.key)) && p.Valid()
    modifies p, p.buffer
    ensures Extended(p, ok, old(Indent(p.format, p.depth) + Quoted(Text(current.key)) + KeySeparator(p.format)))
  {
    hide Quoted, Indent, NulFree, PrintBuffer.Done;
    ghost var done, indent, key := p.Done(), Indent(p.format, p.depth), Quoted(Text(current.key));
    ok := PrintIndent(p);
    if !ok {
      return;
    }
    ok := PrintStringPtr(current.key, p);
    if !ok {
      return;
    }
    p.UpdateOffset(done + indent + key);
    var length := if p.format then 2 else 1;
    ok := Append(p, length, KeySeparator(p.format));
    Joined(done, indent, key, KeySeparator(p.format));
  }

  lemma Joined(done: seq<byte>, a: seq<byte>, b: seq<byte>, c: seq<byte>)
    ensures done + a + b + c == done + (a + b + c)
  {
  }

  /** One member of an object, with the comma and line end behind it. */
  method PrintMember(current: Node, p: PrintBuffer, ghost kid: Shape, ghost last: bool) returns (ok: bool)
    requires kid.node == current && Tree(kid) && Typed(kid) && V.Printable(Value(kid)) && p.Valid()
    requires NulFree(Text(current.key)) && (last <==> current.next == null)
    modifies p, p.buffer
    ensures Extended(p, ok, old(RenderMember(V.Member(Text(current.key), Value(kid)), p.format, p.depth, last)))
    decreases kid, 4
  {
    hide Render, RenderMember, Quoted, Tree, Typed, V.Printable, Value, Indent, KeySeparator, NulFree;
    ShapeAllocated(kid);
    ghost var m := V.Member(Text(current.key), Value(kid));
    ghost var name := Indent(p.format, p.depth) + Quoted(m.key) + KeySeparator(p.format);
    ghost var text := Render(m.value, p.format, p.depth);
    MemberText(m, p.format, p.depth, last, p.Done());
    ok := PrintName(current, p);
    if !ok {
      return;
    }
    ok := PrintValue(current, p, kid);
    if !ok {
      return;
    }
    p.UpdateOffset(old(p.Done()) + name + text);
    var length := (if p.format then 1 else 0) + (if current.next != null then 1 else 0);
    ok := Append(p, length + 1, MemberEnd(p.format, current.next == null));
  }

  lemma {:induction false} MembersStep(before: seq<byte>, ms: seq<V.Member>, fmt: bool, d: nat)
    requires ms != [] && V.PrintableMembers(ms)
    ensures var text := RenderMember(ms[0], fmt, d, |ms| == 1);
            && before + RenderMembers(ms, fmt, d) == (before + text) + RenderMembers(ms[1..], fmt, d)
            && |RenderMembers(ms, fmt, d)| >= |text|
    ensures NulFree(ms[0].key) && V.Printable(ms[0].value) && V.PrintableMembers(ms[1..])
  {
    hide RenderMember;
    var text := RenderMember(ms[0], fmt, d, |ms| == 1);
    assert before + (text + RenderMembers(ms[1..], fmt, d)) == (before + text) + RenderMembers(ms[1..], fmt, d);
  }

  /** The loop over the members of an object. */
  method PrintMembers(item: Node, p: PrintBuffer, ghost s: Shape) returns (ok: bool)
    requires s.node == item && Tree(s) && Typed(s) && V.PrintableMembers(Members(s.kids)) && p.Valid()
    modifies p, p.buffer
    ensures Extended(p, ok, old(RenderMembers(Members(s.kids), p.format, p.depth)))
    decreases s, 0
  {
    hide Tree, Typed, Value, Members, Nodes, NodesOf, V.Printable, V.PrintableMembers, RenderMember, RenderMembers,
         Values, PrintBuffer.Done, Intact;
    ghost var vs, ms, d, cap := Values(s.kids), Members(s.kids), p.depth, p.Capacity();
    ghost var target := p.Done() + RenderMembers(ms, p.format, d);
    ShapeAllocated(s);
    IntactNow(s);
    FirstChild(s);
    var current := item.child;
    ghost var i := 0;
    assert ms[0..] == ms;
    while current != null
      invariant p.Valid() && p.depth == d && p.Capacity() == cap
      invariant p.buffer == old(p.buffer) || fresh(p.buffer)
      invariant p.noalloc ==> p.buffer == old(p.buffer) && p.length == old(p.length)
      invariant i <= |ms| && current == (if i < |ms| then s.kids[i].node else null)
      invariant Intact(s, vs, ms) && V.PrintableMembers(ms[i..])
      invariant target == p.Done() + RenderMembers(ms[i..], p.format, d)
      decreases |ms| - i
    {
      KidIntact(s, vs, ms, i);
      MembersStep(p.Done(), ms[i..], p.format, d);
      assert ms[i..][1..] == ms[i + 1..];
      ok := PrintMember(current, p, s.kids[i], i + 1 == |ms|);
      if !ok {
        return;
      }
      KidIntact(s, vs, ms, i);
      current := current.next;
      i := i + 1;
    }
    NoMore(p.format, d);
    assert ms[i..] == [] && p.Done() + [] == p.Done();
    ok := true;
  }

  lemma {:induction false} ObjectText(s: Shape, fmt: bool, depth: nat)
    requires s.node.kind == Object
    ensures Value(s) == V.Object(Members(s.kids))
    ensures Render(Value(s), fmt, depth)
            == ObjectOpen(fmt) + RenderMembers(Members(s.kids), fmt, depth + 1) + (Indent(fmt, depth) + [RBRACE])
    ensures V.Printable(Value(s)) ==> V.PrintableMembers(Members(s.kids))
  {
    hide Members, RenderMembers, Indent;
    var body, indent := RenderMembers(Members(s.kids), fmt, depth + 1), Indent(fmt, depth);
    assert ObjectOpen(fmt) + body + indent + [RBRACE] == ObjectOpen(fmt) + body + (indent + [RBRACE]);
  }

  method PrintObject(item: Node, p: PrintBuffer, ghost s: Shape) returns (ok: bool)
    requires s.node == item && Tree(s) && Typed(s) && V.Printable(Value(s)) && p.Valid() && item.kind == Object
    modifies p, p.buffer
    ensures Printed(p, ok, old(Render(Value(s), p.format, p.depth)))
    decreases s, 2
  {
    hide Tree, Typed, Value, Members, V.Printable, V.PrintableMembers, Render, RenderMembers, Indent, NulFree, PrintBuffer.Holds,
         PrintBuffer.Done;
    ObjectText(s, p.format, p.depth);
    ShapeAllocated(s);
    ghost var done, body := p.Done(), RenderMembers(Members(s.kids), p.format, p.depth + 1);
    ghost var open, close := ObjectOpen(p.format), Indent(p.format, p.depth) + [RBRACE];
    var length := if p.format then 2 else 1;
    ok := Append(p, length + 1, ObjectOpen(p.format));
    if !ok {
      return;
    }
    p.depth := p.depth + 1;
    ok := PrintObjectRest(item, p, s);
    Concat3(done, open, body, close);
  }

  /** The members of an object and the brace behind them. */
  method PrintObjectRest(item: Node, p: PrintBuffer, ghost s: Shape) returns (ok: bool)
    requires s.node == item && Tree(s) && Typed(s) && V.PrintableMembers(Members(s.kids)) && p.Valid() && p.depth > 0
    modifies p, p.buffer
    ensures Closed(p, ok, old(RenderMembers(Members(s.kids), p.format, p.depth))
                          + (Indent(p.format, old(p.depth) - 1) + [RBRACE]))
    decreases s, 1
  {
    hide Tree, Typed, Value, Members, V.Printable, V.PrintableMembers, Render, RenderMembers, Indent, NulFree, PrintBuffer.Holds,
         PrintBuffer.Done;
    ghost var done, body := p.Done(), RenderMembers(Members(s.kids), p.format, p.depth);
    ok := PrintMembers(item, p, s);
    if !ok {
      return;
    }
    var close := Indent(p.format, p.depth - 1) + [RBRACE];
    CloseNulFree(p.format, p.depth - 1);
    ok := PrintText(p, close);
    if ok {
      p.depth := p.depth - 1;
      assert done + body + close == done + (body + close);
    }
  }

  lemma {:induction false} CloseNulFree(fmt: bool, d: nat)
    ensures NulFree(Indent(fmt, d) + [RBRACE])
  {
    NulFreeConcat(Indent(fmt, d), [RBRACE]);
  }

  // ---------- entry points ----------

  /** Print into a buffer that starts at `initial` bytes and may grow. */
  method PrintGrowing(item: Node, initial: nat, format: bool, ghost s: Shape) returns (p: PrintBuffer, ok: bool)
    requires s.node == item && Tree(s) && Typed(s) && V.Printable(Value(s)) && initial <= INT_MAX
    ensures fresh(p) && fresh(p.buffer)
    ensures var text := old(Render(Value(s), format, 0));
            && (ok <==> |text| + 2 <= INT_MAX)
            && (ok ==> p.Holds(text))
  {
    hide Tree, Typed, Value, V.Printable, Render;
    ShapeAllocated(s);
    p := new PrintBuffer(initial, false, format);
    assert p.Done() == [];
    assert [] + Render(Value(s), format, 0) == Render(Value(s), format, 0);
    ok := PrintValue(item, p, s);
  }

  /** The text in a new string of exactly its length, or null when it is too long for an `int`. */
  method Print(item: Node, format: bool, ghost s: Shape) returns (printed: array?<byte>)
    requires s.node == item && Tree(s) && Typed(s) && V.Printable(Value(s))
    ensures var text := old(Render(Value(s), format, 0));
            && (printed != null <==> |text| + 2 <= INT_MAX)
            && (printed != null ==> fresh(printed) && printed[..] == text + [NUL])
  {
    hide Tree, Typed, Value, V.Printable, Render;
    ghost var text := Render(Value(s), format, 0);
    var p, ok := PrintGrowing(item, 256, format, s);
    if !ok {
      return null;
    }
    p.UpdateOffset(text);
    var r := new byte[p.offset + 1];
    forall i | 0 <= i < p.offset {
      r[i] := p.buffer[i];
    }
    r[p.offset] := NUL;
    assert r[..p.offset] == p.buffer[..p.offset];
    assert r[..] == r[..p.offset] + [r[p.offset]];
    return r;
  }

  method PrintBuffered(item: Node, prebuffer: int, format: bool, ghost s: Shape) returns (printed: array?<byte>)
    requires s.node == item && Tree(s) && Typed(s) && V.Printable(Value(s)) && prebuffer <= INT_MAX
    ensures var text := old(Render(Value(s), format, 0));
            && (printed != null <==> prebuffer >= 0 && |text| + 2 <= INT_MAX)
            && (printed != null ==> |text| < printed.Length && printed[..|text|] == text && printed[|text|] == NUL)
  {
    hide Tree, Typed, Value, V.Printable, Render;
    if prebuffer < 0 {
      return null;
    }
    var p, ok := PrintGrowing(item, prebuffer, format, s);
    printed := if ok then p.buffer else null;
  }

  /** Print into the caller's buffer: it succeeds exactly when two bytes beyond the text are available. */
  method PrintPreallocated(item: Node, buffer: array?<byte>, length: int, format: bool, ghost s: Shape) returns (ok: bool)
    requires s.node == item && Tree(s) && Typed(s) && V.Printable(Value(s))
    requires buffer != null && length >= 0 ==> buffer.Length == length <= INT_MAX
    modifies if buffer == null then {} else {buffer}
    ensures var text := old(Render(Value(s), format, 0));
            && (ok <==> buffer != null && length >= |text| + 2)
            && (ok ==> buffer[..|text|] == text && buffer[|text|] == NUL)
  {
    hide Tree, Typed, Value, V.Printable, Render;
    if length < 0 || buffer == null {
      return false;
    }
    ShapeAllocated(s);
    var p := new PrintBuffer.Over(buffer, format);
    assert p.Done() == [];
    assert [] + Render(Value(s), format, 0) == Render(Value(s), format, 0);
    ok := PrintValue(item, p, s);
  }
}
