/** The recursive half of the cJSON parser: values, arrays, objects and whole texts. */
module JsonParser {
  import opened Bytes
  import opened JsonRender
  import opened JsonNode
  import opened JsonTree
  import opened JsonReader
  import S = JsonSyntax
  import V = JsonValue

  ghost predicate Ready(buf: ParseBuffer)
    reads buf
  {
    Terminated(buf.content) && buf.offset < |buf.content| && buf.depth <= S.NESTING_LIMIT
  }

  ghost function Remaining(buf: ParseBuffer): int
    reads buf
  {
    |buf.content| - buf.offset
  }

  method ParseValue(item: Node, buf: ParseBuffer) returns (ok: bool, ghost s: Shape)
    requires Ready(buf) && item.child == null
    modifies buf, item`kind, item`child, item`valuestring, item`valueint, item`valuedouble
    ensures var r := S.ParseValue(buf.content, old(buf.offset), old(buf.depth));
            && ok == r.Ok?
            && buf.offset == (if ok then r.next else r.at)
            && (ok ==> Value(s) == r.value && buf.depth == old(buf.depth))
    ensures buf.depth <= S.NESTING_LIMIT
    ensures ok ==> s.node == item && Tree(s) && Typed(s) && fresh(NodesOf(s.kids))
    decreases Remaining(buf), 1
  {
    hide S.ParseString, S.ParseNumber, S.ParseArray, S.ParseObject, HasAt, Forest, IsList;
    var c, o := buf.content, buf.offset;
    s := Shape(item, []);
    EmptyTree(s);
    if HasAt(c, o, NULL_TEXT) {
      item.kind := Null;
      buf.offset := o + 4;
      return true, s;
    }
    if HasAt(c, o, FALSE_TEXT) {
      item.kind := False;
      buf.offset := o + 5;
      return true, s;
    }
    if HasAt(c, o, TRUE_TEXT) {
      item.kind := True;
      item.valueint := 1;
      buf.offset := o + 4;
      return true, s;
    }
    if c[o] == QUOTE {
      ok := ParseString(item, buf);
      return;
    }
    if c[o] == MINUS || S.IsDigit(c[o]) {
      ok := ParseNumber(item, buf);
      return;
    }
    if c[o] == LBRACKET {
      ok, s := ParseArray(item, buf);
      return;
    }
    if c[o] == LBRACE {
      ok, s := ParseObject(item, buf);
      return;
    }
    return false, s;
  }

  lemma {:induction false} EmptyTree(s: Shape)
    requires s.kids == [] && s.node.child == null
    ensures Tree(s) && Nodes(s) == {s.node} && NodesOf(s.kids) == {}
    ensures s.node.kind != Invalid ==> Typed(s)
  {
  }

  // ---------- arrays ----------

  function PrependItems(done: seq<V.Json>, r: S.Outcome<seq<V.Json>>): S.Outcome<seq<V.Json>> {
    match r
    case Fail(at) => S.Fail(at)
    case Ok(rest, next) => S.Ok(done + rest, next)
  }

  /** A list under construction: the items parsed so far. */
  ghost predicate Growing(head: Node?, current: Node?, kids: seq<Shape>)
    reads NodesOf(kids)`next, NodesOf(kids)`prev, NodesOf(kids)`child, NodesOf(kids)`kind
  {
    && head == FirstOf(Roots(kids)) && current == LastOf(Roots(kids))
    && Chain(Roots(kids)) && Forest(kids) && TypedAll(kids)
  }

  /** A list whose last item is still empty; the ones before it have these values. */
  ghost predicate Awaiting(head: Node, newItem: Node, kids: seq<Shape>, vs: seq<V.Json>, ms: seq<V.Member>)
    reads NodesOf(kids), newItem`next, newItem`prev
  {
    && Chain(Roots(kids) + [newItem]) && head == FirstOf(Roots(kids) + [newItem]) && newItem !in NodesOf(kids)
    && Forest(kids) && TypedAll(kids) && Values(kids) == vs && Members(kids) == ms
  }

  /** Allocate an item and attach it behind the ones parsed so far. */
  method AttachNew(head: Node?, current: Node?, ghost kids: seq<Shape>) returns (newHead: Node, newItem: Node)
    requires Growing(head, current, kids)
    modifies Just(current)`next
    ensures fresh(newItem) && newItem.child == null && newItem.key == None
    ensures newHead == if head == null then newItem else head
    ensures Awaiting(newHead, newItem, kids, old(Values(kids)), old(Members(kids)))
  {
    hide Chain, Forest, Value, Values, Members, TypedAll, NodesOf;
    NodesAllocated(kids);
    RootsNotBelow(kids);
    assert current != null ==> current in Roots(kids);
    assert Below(kids) <= NodesOf(kids);
    newItem := new Node();
    Attach(current, newItem, Roots(kids));
    newHead := if head == null then newItem else head;
  }

  /** The item is filled and joins the list. */
  lemma {:induction false} GrowingSnoc(newHead: Node, newItem: Node, kids: seq<Shape>, s: Shape,
                                       vs: seq<V.Json>, ms: seq<V.Member>)
    requires Awaiting(newHead, newItem, kids, vs, ms)
    requires s.node == newItem && Tree(s) && Typed(s) && NodesOf(s.kids) !! NodesOf(kids)
    ensures Growing(newHead, newItem, kids + [s])
    ensures NodesOf(kids + [s]) == NodesOf(kids) + Nodes(s)
    ensures Values(kids + [s]) == vs + [Value(s)]
    ensures Members(kids + [s]) == ms + [V.Member(Text(newItem.key), Value(s))]
  {
    hide Chain, Forest, Tree, TypedAll, Typed, NodesOf, Roots, Value, Values, Members;
    ForestSnoc(kids, s);
  }

  /** Step onto the next value, parse it into `item`, and skip what follows it. */
  method ParseNext(item: Node, buf: ParseBuffer) returns (ok: bool, ghost s: Shape)
    requires Terminated(buf.content) && buf.offset + 1 < |buf.content| && buf.depth <= S.NESTING_LIMIT
    requires item.child == null
    modifies buf, item`kind, item`child, item`valuestring, item`valueint, item`valuedouble
    ensures var r := S.ParseValue(buf.content, S.Skip(buf.content, old(buf.offset) + 1), old(buf.depth));
            && ok == r.Ok?
            && buf.offset == (if ok then S.Skip(buf.content, r.next) else r.at)
            && (ok ==> Value(s) == r.value && buf.depth == old(buf.depth))
    ensures buf.depth <= S.NESTING_LIMIT
    ensures ok ==> s.node == item && Tree(s) && Typed(s) && fresh(NodesOf(s.kids))
    decreases Remaining(buf) - 1, 2
  {
    hide Tree, Value, Typed, NodesOf, S.ParseValue, S.Skip;
    buf.offset := buf.offset + 1;
    buf.SkipWhitespace();
    ok, s := ParseValue(item, buf);
    if ok {
      ShapeAllocated(s);
      buf.SkipWhitespace();
    }
  }

  /** One round of the array loop: a new item is attached, then its value is parsed. */
  method ParseItem(head: Node?, current: Node?, buf: ParseBuffer, ghost kids: seq<Shape>)
    returns (ok: bool, newHead: Node, newItem: Node, ghost s: Shape)
    requires Terminated(buf.content) && buf.offset + 1 < |buf.content| && buf.depth <= S.NESTING_LIMIT
    requires Growing(head, current, kids)
    modifies buf, Just(current)`next
    ensures var r := S.ParseValue(buf.content, S.Skip(buf.content, old(buf.offset) + 1), old(buf.depth));
            && ok == r.Ok?
            && buf.offset == (if ok then S.Skip(buf.content, r.next) else r.at)
            && (ok ==> buf.depth == old(buf.depth)
                       && Values(kids + [s]) == old(Values(kids)) + [r.value])
    ensures buf.depth <= S.NESTING_LIMIT
    ensures ok ==> Growing(newHead, newItem, kids + [s]) && fresh(Nodes(s)) && fresh(newItem)
                   && newHead == (if head == null then newItem else head)
                   && NodesOf(kids + [s]) == NodesOf(kids) + Nodes(s)
    decreases Remaining(buf) - 1, 3
  {
    hide Awaiting, Growing, Nodes, Chain, Forest, Tree, Value, Values, Members, TypedAll, Typed, NodesOf, Roots, S.ParseValue, S.Skip;
    ghost var vs, ms := Values(kids), Members(kids);
    NodesAllocated(kids);
    newHead, newItem := AttachNew(head, current, kids);
    ok, s := ParseNext(newItem, buf);
    if ok {
      assert fresh(NodesOf(s.kids));
      GrowingSnoc(newHead, newItem, kids, s, vs, ms);
      NodesAre(s);
    }
  }

  lemma NodesAre(s: Shape)
    ensures Nodes(s) == {s.node} + NodesOf(s.kids)
  {
  }

  lemma {:induction false} ItemsStep(c: seq<byte>, p: nat, d: nat, done: seq<V.Json>)
    requires Terminated(c) && p < |c|
    requires S.ParseValue(c, S.Skip(c, p), d).Ok?
    ensures var r := S.ParseValue(c, S.Skip(c, p), d);
            var m := S.Skip(c, r.next);
            PrependItems(done, S.ParseItems(c, p, d))
            == if c[m] == COMMA then PrependItems(done + [r.value], S.ParseItems(c, m + 1, d))
               else if c[m] == RBRACKET then S.Ok(done + [r.value], m + 1)
               else S.Fail(m)
  {
    hide S.ParseValue, S.Skip;
    var r := S.ParseValue(c, S.Skip(c, p), d);
    var m := S.Skip(c, r.next);
    if c[m] == COMMA {
      var rest := S.ParseItems(c, m + 1, d);
      if rest.Ok? {
        assert done + ([r.value] + rest.value) == done + [r.value] + rest.value;
      }
    }
  }

  lemma {:induction false} PrependNoItems(r: S.Outcome<seq<V.Json>>)
    ensures PrependItems([], r) == r
  {
    if r.Ok? {
      assert [] + r.value == r.value;
    }
  }

  /** The comma-separated items after `[`. */
  method ParseItemList(buf: ParseBuffer) returns (ok: bool, head: Node?, current: Node?, ghost kids: seq<Shape>)
    requires Ready(buf) && buf.offset > 0
    modifies buf
    ensures var r := S.ParseItems(buf.content, old(buf.offset), old(buf.depth));
            && ok == r.Ok?
            && buf.offset == (if ok then r.next - 1 else r.at)
            && (ok ==> Values(kids) == r.value && buf.depth == old(buf.depth))
    ensures buf.depth <= S.NESTING_LIMIT
    ensures ok ==> Growing(head, current, kids) && fresh(NodesOf(kids)) && fresh(Just(head) + Just(current))
    decreases Remaining(buf), 4
  {
    hide Growing, Chain, Forest, Roots, Nodes, Value, Values, Members, TypedAll, NodesOf, S.ParseValue, S.ParseItems, S.Skip;
    var c := buf.content;
    ghost var first, d := buf.offset, buf.depth;
    head, current, kids := null, null, [];
    NoKids();
    PrependNoItems(S.ParseItems(c, first, d));
    buf.offset := buf.offset - 1;
    var more := true;
    while more
      invariant first - 1 <= buf.offset < |c| && buf.depth == d <= S.NESTING_LIMIT
      invariant more ==> buf.offset + 1 < |c|
      invariant Growing(head, current, kids) && fresh(NodesOf(kids)) && fresh(Just(head) + Just(current))
      invariant more ==> S.ParseItems(c, first, d) == PrependItems(Values(kids), S.ParseItems(c, buf.offset + 1, d))
      invariant !more ==> S.ParseItems(c, first, d)
                          == if c[buf.offset] == RBRACKET then S.Ok(Values(kids), buf.offset + 1) else S.Fail(buf.offset)
      decreases more, |c| - buf.offset
    {
      ghost var p, done := buf.offset + 1, Values(kids);
      ghost var s;
      ok, head, current, s := ParseItem(head, current, buf, kids);
      if !ok {
        FailedItem(c, p, d, done);
        return;
      }
      ItemsStep(c, p, d, done);
      kids := kids + [s];
      more := c[buf.offset] == COMMA;
    }
    ok := c[buf.offset] == RBRACKET;
  }

  lemma {:induction false} FailedItem(c: seq<byte>, p: nat, d: nat, done: seq<V.Json>)
    requires Terminated(c) && p < |c|
    requires S.ParseValue(c, S.Skip(c, p), d).Fail?
    ensures PrependItems(done, S.ParseItems(c, p, d)) == S.Fail(S.ParseValue(c, S.Skip(c, p), d).at)
  {
    hide S.ParseValue, S.Skip;
  }

  lemma {:induction false} NoKids()
    ensures NodesOf([]) == {} && Values([]) == [] && Members([]) == []
    ensures Growing(null, null, [])
  {
  }

  /** The list under construction becomes the children of `item`. */
  method Adopt(item: Node, head: Node?, current: Node?, kind: Kind, ghost kids: seq<Shape>) returns (ghost s: Shape)
    requires Growing(head, current, kids) && item !in NodesOf(kids) && kind in {Array, Object}
    modifies item`child, item`kind, Just(head)`prev
    ensures s == Shape(item, kids) && Tree(s) && Typed(s) && item.kind == kind
    ensures Nodes(s) == {item} + NodesOf(kids)
    ensures Values(kids) == old(Values(kids)) && Members(kids) == old(Members(kids))
  {
    hide Chain, Forest, Value, Values, Members, TypedAll, NodesOf, Roots;
    RootsNotBelow(kids);
    NodesAllocated(kids);
    assert head != null ==> head in Roots(kids);
    assert Below(kids) <= NodesOf(kids);
    Close(item, head, current, Roots(kids));
    item.kind := kind;
    s := Shape(item, kids);
  }

  method ParseArray(item: Node, buf: ParseBuffer) returns (ok: bool, ghost s: Shape)
    requires Ready(buf) && item.child == null && buf.content[buf.offset] == LBRACKET
    modifies buf, item`kind, item`child
    ensures var r := S.ParseArray(buf.content, old(buf.offset), old(buf.depth));
            && ok == r.Ok?
            && buf.offset == (if ok then r.next else r.at)
            && (ok ==> Value(s) == r.value && buf.depth == old(buf.depth))
    ensures buf.depth <= S.NESTING_LIMIT
    ensures ok ==> s.node == item && Tree(s) && Typed(s) && fresh(NodesOf(s.kids))
    decreases Remaining(buf), 0
  {
    hide Growing, Tree, Typed, TypedAll, Values, Members, NodesOf, S.ParseItems, S.Skip;
    var c := buf.content;
    var head: Node?, current: Node? := null, null;
    ghost var kids: seq<Shape> := [];
    s := Shape(item, []);
    if buf.depth >= S.NESTING_LIMIT {
      return false, s;
    }
    buf.depth := buf.depth + 1;
    buf.offset := buf.offset + 1;
    buf.SkipWhitespace();
    NoKids();
    if c[buf.offset] != RBRACKET {
      ok, head, current, kids := ParseItemList(buf);
      if !ok {
        return;
      }
    }
    buf.depth := buf.depth - 1;
    s := Adopt(item, head, current, Array, kids);
    buf.offset := buf.offset + 1;
    return true, s;
  }

  // ---------- objects ----------

  function PrependMembers(done: seq<V.Member>, r: S.Outcome<seq<V.Member>>): S.Outcome<seq<V.Member>> {
    match r
    case Fail(at) => S.Fail(at)
    case Ok(rest, next) => S.Ok(done + rest, next)
  }

  /** The name of a new child, up to the colon behind it. The name is parsed as a string value, then moved. */
  method ParseName(item: Node, buf: ParseBuffer) returns (ok: bool)
    requires Terminated(buf.content) && buf.offset + 1 < |buf.content|
    modifies buf`offset, item`kind, item`valuestring, item`key
    ensures var r := S.ParseKey(buf.content, old(buf.offset) + 1);
            && ok == r.Ok?
            && (!ok ==> buf.offset == r.at)
            && (ok ==> old(buf.offset) < buf.offset && buf.offset + 1 < |buf.content|
                       && S.Skip(buf.content, buf.offset + 1) == r.next && item.key == Some(r.value))
  {
    hide S.ParseString, S.Skip;
    buf.offset := buf.offset + 1;
    buf.SkipWhitespace();
    ok := ParseString(item, buf);
    if !ok {
      return;
    }
    buf.SkipWhitespace();
    item.key := item.valuestring;
    item.valuestring := None;
    ok := buf.content[buf.offset] == COLON;
  }

  /** One round of the object loop: a new item is attached, then its name and value are parsed. */
  method ParseMember(head: Node?, current: Node?, buf: ParseBuffer, ghost kids: seq<Shape>)
    returns (ok: bool, newHead: Node, newItem: Node, ghost s: Shape)
    requires Terminated(buf.content) && buf.offset + 1 < |buf.content| && buf.depth <= S.NESTING_LIMIT
    requires Growing(head, current, kids)
    modifies buf, Just(current)`next
    ensures match S.ParseKey(buf.content, old(buf.offset) + 1)
            case Fail(at) => !ok && buf.offset == at
            case Ok(key, start) =>
              var r := S.ParseValue(buf.content, start, old(buf.depth));
              && ok == r.Ok?
              && buf.offset == (if ok then S.Skip(buf.content, r.next) else r.at)
              && (ok ==> buf.depth == old(buf.depth)
                         && Members(kids + [s]) == old(Members(kids)) + [V.Member(key, r.value)])
    ensures buf.depth <= S.NESTING_LIMIT
    ensures ok ==> Growing(newHead, newItem, kids + [s]) && fresh(Nodes(s)) && fresh(newItem)
                   && newHead == (if head == null then newItem else head)
                   && NodesOf(kids + [s]) == NodesOf(kids) + Nodes(s)
    decreases Remaining(buf) - 1, 3
  {
    hide Awaiting, Growing, Nodes, Chain, Forest, Tree, Value, Values, Members, TypedAll, Typed, NodesOf, Roots, S.ParseValue, S.Skip, S.ParseKey;
    ghost var vs, ms := Values(kids), Members(kids);
    NodesAllocated(kids);
    newHead, newItem := AttachNew(head, current, kids);
    s := Shape(newItem, []);
    ok := ParseName(newItem, buf);
    if !ok {
      return;
    }
    ok, s := ParseNext(newItem, buf);
    if ok {
      assert fresh(NodesOf(s.kids));
      GrowingSnoc(newHead, newItem, kids, s, vs, ms);
      NodesAre(s);
    }
  }

  lemma {:induction false} MembersStep(c: seq<byte>, p: nat, d: nat, done: seq<V.Member>)
    requires Terminated(c) && p < |c|
    requires S.ParseKey(c, p).Ok? && S.ParseValue(c, S.ParseKey(c, p).next, d).Ok?
    ensures var k := S.ParseKey(c, p);
            var r := S.ParseValue(c, k.next, d);
            var m := S.Skip(c, r.next);
            var member := V.Member(k.value, r.value);
            PrependMembers(done, S.ParseMembers(c, p, d))
            == if c[m] == COMMA then PrependMembers(done + [member], S.ParseMembers(c, m + 1, d))
               else if c[m] == RBRACE then S.Ok(done + [member], m + 1)
               else S.Fail(m)
  {
    hide S.ParseValue, S.Skip, S.ParseKey;
    var k := S.ParseKey(c, p);
    var r := S.ParseValue(c, k.next, d);
    var m := S.Skip(c, r.next);
    var member := V.Member(k.value, r.value);
    if c[m] == COMMA {
      var rest := S.ParseMembers(c, m + 1, d);
      if rest.Ok? {
        assert done + ([member] + rest.value) == done + [member] + rest.value;
      }
    }
  }

  lemma {:induction false} FailedMember(c: seq<byte>, p: nat, d: nat, done: seq<V.Member>)
    requires Terminated(c) && p < |c|
    requires S.ParseKey(c, p).Ok? ==> S.ParseValue(c, S.ParseKey(c, p).next, d).Fail?
    ensures PrependMembers(done, S.ParseMembers(c, p, d))
            == match S.ParseKey(c, p) {
                 case Fail(at) => S.Fail(at)
                 case Ok(_, start) => S.Fail(S.ParseValue(c, start, d).at)
               }
  {
    hide S.ParseValue, S.Skip, S.ParseKey;
  }

  lemma {:induction false} PrependNoMembers(r: S.Outcome<seq<V.Member>>)
    ensures PrependMembers([], r) == r
  {
    if r.Ok? {
      assert [] + r.value == r.value;
    }
  }

  /** The comma-separated members after `{`. */
  method ParseMemberList(buf: ParseBuffer) returns (ok: bool, head: Node?, current: Node?, ghost kids: seq<Shape>)
    requires Ready(buf) && buf.offset > 0
    modifies buf
    ensures var r := S.ParseMembers(buf.content, old(buf.offset), old(buf.depth));
            && ok == r.Ok?
            && buf.offset == (if ok then r.next - 1 else r.at)
            && (ok ==> Members(kids) == r.value && buf.depth == old(buf.depth))
    ensures buf.depth <= S.NESTING_LIMIT
    ensures ok ==> Growing(head, current, kids) && fresh(NodesOf(kids)) && fresh(Just(head) + Just(current))
    decreases Remaining(buf), 4
  {
    hide Growing, Roots, Nodes, Chain, Forest, Value, Members, TypedAll, NodesOf, S.ParseValue, S.ParseMembers, S.Skip, S.ParseKey;
    var c := buf.content;
    ghost var first, d := buf.offset, buf.depth;
    head, current, kids := null, null, [];
    NoKids();
    PrependNoMembers(S.ParseMembers(c, first, d));
    buf.offset := buf.offset - 1;
    var more := true;
    while more
      invariant first - 1 <= buf.offset < |c| && buf.depth == d <= S.NESTING_LIMIT
      invariant more ==> buf.offset + 1 < |c|
      invariant Growing(head, current, kids) && fresh(NodesOf(kids)) && fresh(Just(head) + Just(current))
      invariant more ==> S.ParseMembers(c, first, d) == PrependMembers(Members(kids), S.ParseMembers(c, buf.offset + 1, d))
      invariant !more ==> S.ParseMembers(c, first, d)
                          == if c[buf.offset] == RBRACE then S.Ok(Members(kids), buf.offset + 1) else S.Fail(buf.offset)
      decreases more, |c| - buf.offset
    {
      ghost var p, done := buf.offset + 1, Members(kids);
      ghost var s;
      ok, head, current, s := ParseMember(head, current, buf, kids);
      if !ok {
        FailedMember(c, p, d, done);
        return;
      }
      MembersStep(c, p, d, done);
      kids := kids + [s];
      more := c[buf.offset] == COMMA;
    }
    ok := c[buf.offset] == RBRACE;
  }

  method ParseObject(item: Node, buf: ParseBuffer) returns (ok: bool, ghost s: Shape)
    requires Ready(buf) && item.child == null && buf.content[buf.offset] == LBRACE
    modifies buf, item`kind, item`child
    ensures var r := S.ParseObject(buf.content, old(buf.offset), old(buf.depth));
            && ok == r.Ok?
            && buf.offset == (if ok then r.next else r.at)
            && (ok ==> Value(s) == r.value && buf.depth == old(buf.depth))
    ensures buf.depth <= S.NESTING_LIMIT
    ensures ok ==> s.node == item && Tree(s) && Typed(s) && fresh(NodesOf(s.kids))
    decreases Remaining(buf), 0
  {
    hide Growing, Tree, Typed, TypedAll, Values, Members, NodesOf, S.ParseMembers, S.Skip;
    var c := buf.content;
    var head: Node?, current: Node? := null, null;
    ghost var kids: seq<Shape> := [];
    s := Shape(item, []);
    if buf.depth >= S.NESTING_LIMIT {
      return false, s;
    }
    buf.depth := buf.depth + 1;
    buf.offset := buf.offset + 1;
    buf.SkipWhitespace();
    NoKids();
    if c[buf.offset] != RBRACE {
      ok, head, current, kids := ParseMemberList(buf);
      if !ok {
        return;
      }
    }
    buf.depth := buf.depth - 1;
    s := Adopt(item, head, current, Object, kids);
    buf.offset := buf.offset + 1;
    return true, s;
  }

  // ---------- whole texts ----------

  /** Step over a byte order mark at the start of the text. */
  method SkipUtf8Bom(buf: ParseBuffer)
    requires buf.offset == 0
    modifies buf`offset
    ensures buf.offset == if S.HasBom(buf.content) then 3 else 0
  {
    if 4 < |buf.content| && buf.content[..3] == S.BOM {
      buf.offset := 3;
    }
  }

  /**
   Parse a C string. Returns the new item, or null and the position of the error;
   with `requireNullTerminated`, nothing but white space may follow the value.
   */
  method ParseWithOpts(value: seq<byte>, requireNullTerminated: bool)
    returns (item: Node?, parseEnd: nat, ghost s: Shape)
    requires NulFree(value)
    ensures match S.ParseText(value, requireNullTerminated)
            case Fail(at) => item == null && parseEnd == at
            case Ok(v, next) =>
              && item != null && parseEnd == next
              && s.node == item && Tree(s) && Typed(s) && Value(s) == v && fresh(Nodes(s))
    ensures parseEnd <= |value|
  {
    hide Tree, Value, Typed, NodesOf, S.ParseValue, S.Skip;
    var buf := new ParseBuffer(value + [NUL]);
    var root := new Node();
    SkipUtf8Bom(buf);
    buf.SkipWhitespace();
    var ok;
    ok, s := ParseValue(root, buf);
    if ok {
      assert fresh(NodesOf(s.kids));
      ShapeAllocated(s);
      if requireNullTerminated {
        buf.SkipWhitespace();
        ok := buf.content[buf.offset] == NUL;
      }
    }
    parseEnd := if buf.offset < |buf.content| then buf.offset else |buf.content| - 1;
    item := if ok then root else null;
  }
}
