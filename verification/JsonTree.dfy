/**
 Whole cJSON trees on the heap. A ghost `Shape` names the items of a tree and who
 is whose child; `Tree` says that the heap has that shape, and `Value` is the JSON
 value it stands for.
 */
module JsonTree {
  import opened Bytes
  import V = JsonValue
  import opened JsonNode

  datatype Shape = Shape(node: Node, kids: seq<Shape>)

  ghost function Nodes(s: Shape): set<Node> {
    {s.node} + NodesOf(s.kids)
  }

  ghost function NodesOf(kids: seq<Shape>): set<Node> {
    if kids == [] then {} else Nodes(kids[0]) + NodesOf(kids[1..])
  }

  /** The items strictly below the roots of `kids`. */
  ghost function Below(kids: seq<Shape>): (r: set<Node>)
    ensures r <= NodesOf(kids)
  {
    if kids == [] then {} else NodesOf(kids[0].kids) + Below(kids[1..])
  }

  ghost function Roots(kids: seq<Shape>): (r: seq<Node>)
    ensures |r| == |kids|
    ensures forall i :: 0 <= i < |kids| ==> r[i] == kids[i].node
    ensures forall x :: x in r ==> x in NodesOf(kids)
  {
    if kids == [] then [] else [kids[0].node] + Roots(kids[1..])
  }

  /** The heap below `s.node` has exactly the shape `s`, and no item occurs twice. */
  ghost predicate Tree(s: Shape)
    reads Nodes(s)`child, NodesOf(s.kids)`next, NodesOf(s.kids)`prev
  {
    IsList(s.node, Roots(s.kids)) && s.node !in NodesOf(s.kids) && Forest(s.kids)
  }

  ghost predicate Forest(kids: seq<Shape>)
    reads NodesOf(kids)`child, Below(kids)`next, Below(kids)`prev
  {
    kids == [] ||
    (Tree(kids[0]) && Forest(kids[1..]) && Nodes(kids[0]) !! NodesOf(kids[1..]))
  }

  ghost function Text(s: Option<seq<byte>>): seq<byte> {
    if s == None then [] else s.value
  }

  ghost function Value(s: Shape): V.Json
    reads Nodes(s)`kind, Nodes(s)`valuestring, Nodes(s)`valuedouble, Nodes(s)`key
  {
    match s.node.kind
    case False => V.False
    case True => V.True
    case Number => V.Number(s.node.valuedouble)
    case String => V.String(Text(s.node.valuestring))
    case Array => V.Array(Values(s.kids))
    case Object => V.Object(Members(s.kids))
    case _ => V.Null
  }

  ghost function Values(kids: seq<Shape>): (r: seq<V.Json>)
    reads NodesOf(kids)`kind, NodesOf(kids)`valuestring, NodesOf(kids)`valuedouble, NodesOf(kids)`key
    ensures |r| == |kids|
  {
    if kids == [] then [] else [Value(kids[0])] + Values(kids[1..])
  }

  ghost function Members(kids: seq<Shape>): (r: seq<V.Member>)
    reads NodesOf(kids)`kind, NodesOf(kids)`valuestring, NodesOf(kids)`valuedouble, NodesOf(kids)`key
    ensures |r| == |kids|
  {
    if kids == [] then []
    else [V.Member(Text(kids[0].node.key), Value(kids[0]))] + Members(kids[1..])
  }

  /** Every item has a type the printer and the comparison know. */
  ghost predicate Typed(s: Shape)
    reads Nodes(s)`kind
  {
    s.node.kind != Invalid && TypedAll(s.kids)
  }

  ghost predicate TypedAll(kids: seq<Shape>)
    reads NodesOf(kids)`kind
  {
    kids == [] || (Typed(kids[0]) && TypedAll(kids[1..]))
  }

  // ---------- walking the children ----------

  /** What a walk along `next` finds at child `i`. */
  lemma {:induction false} ChildAt(s: Shape, i: nat)
    requires Tree(s) && i < |s.kids|
    ensures Tree(s.kids[i]) && s.kids[i] < s
    ensures s.kids[i].node.next == if i + 1 < |s.kids| then s.kids[i + 1].node else null
  {
    hide Forest;
    ForestAt(s.kids, i);
    assert Roots(s.kids)[i].next == NextOf(Roots(s.kids), i);
  }

  lemma {:induction false} ForestAt(kids: seq<Shape>, i: nat)
    requires Forest(kids) && i < |kids|
    ensures Tree(kids[i])
    decreases i
  {
    hide Tree;
    if i > 0 {
      ForestAt(kids[1..], i - 1);
    }
  }

  lemma {:induction false} FirstChild(s: Shape)
    requires Tree(s)
    ensures s.node.child == if s.kids == [] then null else s.kids[0].node
  {
    hide Forest;
  }

  // ---------- growing a forest at its end ----------

  lemma {:induction false} ForestSnoc(kids: seq<Shape>, s: Shape)
    ensures NodesOf(kids + [s]) == NodesOf(kids) + Nodes(s)
    ensures Roots(kids + [s]) == Roots(kids) + [s.node]
    ensures Forest(kids) && Tree(s) && Nodes(s) !! NodesOf(kids) ==> Forest(kids + [s])
    ensures Values(kids + [s]) == Values(kids) + [Value(s)]
    ensures Members(kids + [s]) == Members(kids) + [V.Member(Text(s.node.key), Value(s))]
    ensures TypedAll(kids) && Typed(s) ==> TypedAll(kids + [s])
  {
    hide Tree, Value, Typed;
    if kids == [] {
      assert kids + [s] == [s];
      assert [s][1..] == [];
    } else {
      assert (kids + [s])[1..] == kids[1..] + [s];
      ForestSnoc(kids[1..], s);
    }
  }

  lemma {:induction false} RootsNotBelow(kids: seq<Shape>)
    requires Forest(kids)
    ensures forall x :: x in Roots(kids) ==> x !in Below(kids)
    ensures Distinct(Roots(kids))
  {
    hide IsList;
    if kids != [] {
      RootsNotBelow(kids[1..]);
    }
  }

  /** The items of an existing shape exist. */
  lemma {:induction false} NodesAllocated(kids: seq<Shape>)
    ensures forall x :: x in NodesOf(kids) ==> allocated(x)
  {
    if kids != [] {
      var first := kids[0];
      assert allocated(first.node);
      NodesAllocated(first.kids);
      NodesAllocated(kids[1..]);
      assert forall x :: x in Nodes(first) ==> allocated(x);
    }
  }

  lemma {:induction false} ShapeAllocated(s: Shape)
    ensures forall x :: x in Nodes(s) ==> allocated(x)
    ensures NodesOf(s.kids) <= Nodes(s)
  {
    NodesAllocated(s.kids);
  }

  // ---------- chains: sibling lists under construction ----------

  /** Linked like a list, except that the head does not know the tail yet. */
  ghost predicate Chain(items: seq<Node>)
    reads items`next, items`prev
  {
    && Distinct(items)
    && (forall i {:trigger items[i].next} :: 0 <= i < |items| ==> items[i].next == NextOf(items, i))
    && (forall i {:trigger items[i].prev} :: 0 < i < |items| ==> items[i].prev == items[i - 1])
  }

  ghost function LastOf(items: seq<Node>): Node? {
    if items == [] then null else items[|items| - 1]
  }

  /** Attach a new item behind `current`, the tail of the chain so far. */
  method Attach(current: Node?, newItem: Node, ghost items: seq<Node>)
    requires Chain(items) && current == LastOf(items)
    requires newItem !in items && newItem.next == null
    modifies Just(current)`next, newItem`prev
    ensures Chain(items + [newItem])
  {
    if current != null {
      current.next := newItem;
      newItem.prev := current;
    }
    ghost var r := items + [newItem];
    forall j | 0 <= j < |r| ensures r[j].next == NextOf(r, j) {
      if j + 1 < |items| { assert items[j].next == NextOf(items, j); }
    }
  }

  /** The head learns its tail, and the chain becomes the parent's list. */
  method Close(parent: Node, head: Node?, current: Node?, ghost items: seq<Node>)
    requires Chain(items) && head == FirstOf(items) && current == LastOf(items)
    modifies parent`child, Just(head)`prev
    ensures IsList(parent, items)
  {
    if head != null {
      head.prev := current;
    }
    parent.child := head;
  }
}
