/** Building arrays from numbers and copying trees, with the sibling lists they leave behind. */
module JsonCopy {
  import opened Bytes
  import V = JsonValue
  import opened JsonNode
  import opened JsonTree
  import JsonReader
  import P = JsonParser

  // ---------- copies ----------

  /** Two items with the same contents, apart from their links. */
  ghost predicate SameItem(a: Node, b: Node)
    reads a`kind, a`valuestring, a`valueint, a`valuedouble, a`key
    reads b`kind, b`valuestring, b`valueint, b`valuedouble, b`key
  {
    && a.kind == b.kind && a.valuestring == b.valuestring && a.valueint == b.valueint
    && a.valuedouble == b.valuedouble && a.key == b.key
  }

  ghost predicate Same(s: Shape, t: Shape)
    reads Nodes(s)`kind, Nodes(s)`valuestring, Nodes(s)`valueint, Nodes(s)`valuedouble, Nodes(s)`key
    reads Nodes(t)`kind, Nodes(t)`valuestring, Nodes(t)`valueint, Nodes(t)`valuedouble, Nodes(t)`key
    decreases s
  {
    SameItem(s.node, t.node) && SameAll(s.kids, t.kids)
  }

  ghost predicate SameAll(xs: seq<Shape>, ys: seq<Shape>)
    reads NodesOf(xs)`kind, NodesOf(xs)`valuestring, NodesOf(xs)`valueint, NodesOf(xs)`valuedouble, NodesOf(xs)`key
    reads NodesOf(ys)`kind, NodesOf(ys)`valuestring, NodesOf(ys)`valueint, NodesOf(ys)`valuedouble, NodesOf(ys)`key
    decreases xs
  {
    |xs| == |ys| && (xs == [] || (Same(xs[0], ys[0]) && SameAll(xs[1..], ys[1..])))
  }

  /** A copy stands for the same JSON value. */
  lemma {:induction false} SameValue(s: Shape, t: Shape)
    requires Same(s, t)
    ensures Value(s) == Value(t)
    ensures Typed(s) ==> Typed(t)
    decreases s, 1
  {
    hide Values, Members, TypedAll;
    SameValues(s.kids, t.kids);
  }

  lemma {:induction false} SameValues(xs: seq<Shape>, ys: seq<Shape>)
    requires SameAll(xs, ys)
    ensures Values(xs) == Values(ys) && Members(xs) == Members(ys)
    ensures TypedAll(xs) ==> TypedAll(ys)
    decreases xs, 0
  {
    hide Value, Typed;
    if xs != [] {
      SameValue(xs[0], ys[0]);
      SameValues(xs[1..], ys[1..]);
    }
  }

  lemma {:induction false} SameSnoc(xs: seq<Shape>, ys: seq<Shape>, s: Shape, t: Shape)
    requires SameAll(xs, ys) && Same(s, t)
    ensures SameAll(xs + [s], ys + [t])
    decreases xs
  {
    hide Same;
    if xs == [] {
      assert xs + [s] == [s] && ys + [t] == [t] && [s][1..] == [] && [t][1..] == [];
    } else {
      assert (xs + [s])[1..] == xs[1..] + [s] && (ys + [t])[1..] == ys[1..] + [t];
      SameSnoc(xs[1..], ys[1..], s, t);
    }
  }

  /** Link a finished copy behind the ones before it, or make it the first child. */
  method LinkCopy(newitem: Node, current: Node?, newchild: Node, ghost copies: seq<Shape>, ghost t: Shape,
                  ghost originals: seq<Shape>, ghost original: Shape)
    requires Chain(Roots(copies)) && current == LastOf(Roots(copies)) && Forest(copies)
    requires newitem.child == FirstOf(Roots(copies))
    requires t.node == newchild && Tree(t) && newchild.next == null && Nodes(t) !! NodesOf(copies)
    requires newitem !in NodesOf(copies) && newitem !in Nodes(t)
    requires SameAll(originals, copies) && Same(original, t)
    modifies newitem`child, Just(current)`next, newchild`prev
    ensures Chain(Roots(copies + [t])) && newchild == LastOf(Roots(copies + [t])) && Forest(copies + [t])
    ensures newitem.child == FirstOf(Roots(copies + [t]))
    ensures NodesOf(copies + [t]) == NodesOf(copies) + Nodes(t)
    ensures SameAll(originals + [original], copies + [t])
  {
    hide Chain, Forest, Tree, Value, Values, Members, Typed, TypedAll, NodesOf, Same, SameAll, Roots;
    RootsNotBelow(copies);
    NodesAllocated(copies);
    NodesAllocated(originals);
    ShapeAllocated(original);
    ShapeAllocated(t);
    assert current != null ==> current in Roots(copies);
    assert Below(copies) <= NodesOf(copies);
    assert newchild in Nodes(t);
    RootAbove(t);
    if current != null {
      Attach(current, newchild, Roots(copies));
    } else {
      newitem.child := newchild;
      Attach(null, newchild, Roots(copies));
    }
    ForestSnoc(copies, t);
    SameSnoc(originals, copies, original, t);
  }

  lemma {:induction false} RootAbove(t: Shape)
    requires Tree(t)
    ensures t.node !in NodesOf(t.kids)
  {
  }

  /**
   Copy an item, with its children when `recurse` is set. The copy shares nothing with
   the original, has the same contents everywhere, and is linked to no sibling.
   */
  method Duplicate(item: Node?, recurse: bool, ghost s: Shape) returns (newitem: Node?, ghost t: Shape)
    requires item != null ==> s.node == item && Tree(s)
    ensures newitem == null <==> item == null
    ensures newitem != null ==> t.node == newitem && Tree(t) && newitem.next == null && newitem.prev == null
                                && fresh(Nodes(t))
    ensures newitem != null ==> if recurse then Same(s, t) else SameItem(s.node, newitem) && t.kids == []
    decreases item != null, s
  {
    hide Tree, Forest, Chain, Same, NodesOf, SameAll;
    if item == null {
      return null, s;
    }
    ShapeAllocated(s);
    newitem := new Node();
    newitem.kind := item.kind;
    newitem.valueint := item.valueint;
    newitem.valuedouble := item.valuedouble;
    newitem.valuestring := item.valuestring;
    newitem.key := item.key;
    t := Shape(newitem, []);
    LeafTree(t);
    if !recurse {
      return;
    }
    ghost var kids;
    kids := DuplicateChildren(newitem, item, s);
    t := Shape(newitem, kids);
    GrownTree(s, t);
  }

  lemma {:induction false} LeafTree(t: Shape)
    requires t.kids == [] && t.node.child == null
    ensures Tree(t) && NodesOf(t.kids) == {}
  {
  }

  lemma {:induction false} GrownTree(s: Shape, t: Shape)
    requires IsList(t.node, Roots(t.kids)) && t.node !in NodesOf(t.kids) && Forest(t.kids)
    requires SameItem(s.node, t.node) && SameAll(s.kids, t.kids)
    ensures Tree(t) && Same(s, t)
  {
  }

  /** The loop over the children of the original. */
  method DuplicateChildren(newitem: Node, item: Node, ghost s: Shape) returns (ghost copies: seq<Shape>)
    requires s.node == item && Tree(s) && newitem.child == null && newitem !in Nodes(s)
    modifies newitem`child
    ensures IsList(newitem, Roots(copies)) && Forest(copies) && fresh(NodesOf(copies))
    ensures SameAll(s.kids, copies)
    decreases true, s, 0
  {
    hide Tree, Forest, Chain, Same, SameAll, Nodes, NodesOf, SameItem, IsList, Roots, Below;
    FirstChild(s);
    ShapeAllocated(s);
    ShapeNodes(s);
    var child := item.child;
    var next: Node? := null;
    copies := [];
    ghost var i := 0;
    NoCopies();
    assert s.kids[..0] == [];
    while child != null
      invariant i <= |s.kids| && child == (if i < |s.kids| then s.kids[i].node else null)
      invariant Tree(s)
      invariant Chain(Roots(copies)) && Forest(copies) && fresh(NodesOf(copies)) && fresh(Just(next))
      invariant next == LastOf(Roots(copies)) && newitem.child == FirstOf(Roots(copies))
      invariant SameAll(s.kids[..i], copies)
      decreases |s.kids| - i
    {
      ChildAt(s, i);
      NodesAllocated(copies);
      NodesAllocated(s.kids[..i]);
      assert Below(copies) <= NodesOf(copies);
      ghost var t;
      var newchild;
      newchild, t := Duplicate(child, true, s.kids[i]);
      ShapeNodes(t);
      assert Nodes(t) !! NodesOf(copies);
      LinkCopy(newitem, next, newchild, copies, t, s.kids[..i], s.kids[i]);
      next := newchild;
      assert s.kids[..i + 1] == s.kids[..i] + [s.kids[i]];
      copies := copies + [t];
      ChildAt(s, i);
      child := child.next;
      i := i + 1;
    }
    assert s.kids[..i] == s.kids;
    NodesAllocated(copies);
    NodesAllocated(s.kids);
    RootsNotBelow(copies);
    assert Below(copies) <= NodesOf(copies);
    assert newitem.child != null ==> newitem.child in Roots(copies);
    Close(newitem, newitem.child, next, Roots(copies));
  }

  lemma {:induction false} ShapeNodes(s: Shape)
    ensures NodesOf(s.kids) <= Nodes(s) && s.node in Nodes(s)
  {
  }

  lemma {:induction false} NoCopies()
    ensures NodesOf([]) == {} && Forest([]) && Chain(Roots([])) && Roots([]) == [] && SameAll([], [])
  {
  }

  // ---------- arrays of numbers ----------

  function NumberValues(numbers: seq<int>): (r: seq<V.Json>)
    ensures |r| == |numbers|
  {
    if numbers == [] then []
    else NumberValues(numbers[..|numbers| - 1]) + [V.Number(numbers[|numbers| - 1] as real)]
  }

  /** A new array item whose children are the first `count` numbers, in order. */
  method CreateIntArray(numbers: Option<seq<int>>, count: int) returns (a: Node?, ghost s: Shape)
    requires numbers.Some? ==> count <= |numbers.value|
    ensures a != null <==> count >= 0 && numbers.Some?
    ensures a != null ==> s.node == a && Tree(s) && Typed(s) && fresh(Nodes(s))
                          && Value(s) == V.Array(NumberValues(numbers.value[..count]))
  {
    hide Tree, Typed, P.Growing, Values, NodesOf, NumberValues;
    var item := new Node();
    s := Shape(item, []);
    if count < 0 || numbers == None {
      return null, s;
    }
    var xs := numbers.value;
    var head: Node?, p: Node? := null, null;
    ghost var kids: seq<Shape> := [];
    P.NoKids();
    NoNumbers();
    assert xs[..0] == [];
    for i := 0 to count
      invariant P.Growing(head, p, kids) && fresh(NodesOf(kids)) && item !in NodesOf(kids) && fresh(Just(head) + Just(p))
      invariant Values(kids) == NumberValues(xs[..i])
    {
      ghost var leaf;
      head, p, leaf := AppendNumber(head, p, xs[i], kids);
      NumbersSnoc(xs, i);
      kids := kids + [leaf];
    }
    s := P.Adopt(item, head, p, Array, kids);
    return item, s;
  }

  lemma {:induction false} NoNumbers()
    ensures NumberValues([]) == []
  {
  }

  lemma {:induction false} NumbersSnoc(xs: seq<int>, i: nat)
    requires i < |xs|
    ensures NumberValues(xs[..i + 1]) == NumberValues(xs[..i]) + [V.Number(xs[i] as real)]
  {
    assert xs[..i + 1][..i] == xs[..i];
  }

  method AppendNumber(head: Node?, p: Node?, number: int, ghost kids: seq<Shape>)
    returns (newHead: Node, n: Node, ghost leaf: Shape)
    requires P.Growing(head, p, kids)
    modifies Just(p)`next
    ensures P.Growing(newHead, n, kids + [leaf]) && fresh(n) && NodesOf(kids + [leaf]) == NodesOf(kids) + {n}
    ensures newHead == if head == null then n else head
    ensures Values(kids + [leaf]) == old(Values(kids)) + [V.Number(number as real)]
    ensures n.valueint == JsonReader.ValueInt(number as real)
  {
    hide Chain, Forest, Values, Members, TypedAll, Roots, P.Awaiting, P.Growing, NodesOf;
    ghost var vs, ms := Values(kids), Members(kids);
    NodesAllocated(kids);
    newHead, n := P.AttachNew(head, p, kids);
    n.kind := Number;
    n.valuedouble := number as real;
    n.valueint := JsonReader.ValueInt(number as real);
    leaf := Shape(n, []);
    LeafTree(leaf);
    NumberLeaf(leaf);
    P.GrowingSnoc(newHead, n, kids, leaf, vs, ms);
  }

  lemma {:induction false} NumberLeaf(leaf: Shape)
    requires leaf.kids == [] && leaf.node.kind == Number
    ensures Typed(leaf) && Nodes(leaf) == {leaf.node} && Value(leaf) == V.Number(leaf.node.valuedouble)
  {
  }
}
