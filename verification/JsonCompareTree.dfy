/**
 Looking members up and comparing whole trees on the heap. An `Item` is the contents of a
 tree with everything that may be missing, so that the specifications need no heap.
 */
module JsonCompareTree {
  import opened Bytes
  import V = JsonValue
  import opened JsonNode
  import opened JsonTree
  import C = JsonCompare
  import JsonCopy

  // ---------- keys ----------

  /** The byte at `i` of the C string `s`, its terminator included. */
  function CharAt(s: seq<byte>, i: nat): byte {
    if i < |s| then s[i] else NUL
  }

  /** Zero exactly for two strings that are equal up to case; a missing string equals nothing. */
  method CaseInsensitiveStrcmp(string1: Option<seq<byte>>, string2: Option<seq<byte>>) returns (r: int)
    requires string1.Some? ==> NulFree(string1.value)
    requires string2.Some? ==> NulFree(string2.value)
    ensures r == 0 <==> string1.Some? && string2.Some?
                        && C.SameKey(string1.value, string2.value, false)
  {
    if string1 == None || string2 == None {
      return 1;
    }
    var s, t := string1.value, string2.value;
    var i := 0;
    while C.ToLower(CharAt(s, i)) == C.ToLower(CharAt(t, i))
      invariant i <= |s| && i <= |t|
      invariant forall j :: 0 <= j < i ==> C.SameLetter(s[j], t[j])
      decreases |s| - i
    {
      C.LowerMeans(CharAt(s, i), CharAt(t, i));
      if CharAt(s, i) == NUL {
        return 0;
      }
      i := i + 1;
    }
    C.LowerMeans(CharAt(s, i), CharAt(t, i));
    return C.ToLower(CharAt(s, i)) - C.ToLower(CharAt(t, i));
  }

  // ---------- contents ----------

  datatype Item = Item(kind: Kind, text: Option<seq<byte>>, number: real, key: Option<seq<byte>>, kids: seq<Item>)

  ghost function Image(s: Shape): Item
    reads Nodes(s)`kind, Nodes(s)`valuestring, Nodes(s)`valuedouble, Nodes(s)`key
  {
    Item(s.node.kind, s.node.valuestring, s.node.valuedouble, s.node.key, Images(s.kids))
  }

  ghost function Images(kids: seq<Shape>): (r: seq<Item>)
    reads NodesOf(kids)`kind, NodesOf(kids)`valuestring, NodesOf(kids)`valuedouble, NodesOf(kids)`key
    ensures |r| == |kids|
  {
    if kids == [] then [] else [Image(kids[0])] + Images(kids[1..])
  }

  /** The heap holds the tree `s` with the contents `x`. */
  ghost predicate Holds(s: Shape, x: Item)
    reads Nodes(s), NodesOf(s.kids)
  {
    Tree(s) && Image(s) == x
  }

  lemma {:induction false} HoldsRoot(s: Shape, x: Item)
    requires Holds(s, x)
    ensures s.node.kind == x.kind && s.node.valuestring == x.text && s.node.valuedouble == x.number
    ensures s.node.key == x.key && |s.kids| == |x.kids|
    ensures s.node.child == if s.kids == [] then null else s.kids[0].node
  {
    hide Tree;
    FirstChild(s);
  }

  lemma {:induction false} HoldsKid(s: Shape, x: Item, i: nat)
    requires Holds(s, x) && i < |s.kids|
    ensures |s.kids| == |x.kids| && Holds(s.kids[i], x.kids[i]) && Nodes(s.kids[i]) <= Nodes(s)
    ensures s.kids[i].node.next == if i + 1 < |s.kids| then s.kids[i + 1].node else null
    ensures s.kids[i].node.key == x.kids[i].key
  {
    hide Tree;
    ChildAt(s, i);
    ImageAt(s.kids, i);
  }

  lemma {:induction false} ImageAt(kids: seq<Shape>, i: nat)
    requires i < |kids|
    ensures Images(kids)[i] == Image(kids[i]) && Nodes(kids[i]) <= NodesOf(kids)
    decreases i
  {
    hide Image;
    if i > 0 {
      ImageAt(kids[1..], i - 1);
    }
  }

  /** The JSON value of the contents. */
  ghost function ItemValue(x: Item): V.Json
    decreases x, 1
  {
    match x.kind
    case False => V.False
    case True => V.True
    case Number => V.Number(x.number)
    case String => V.String(Text(x.text))
    case Array => V.Array(ItemValues(x.kids))
    case Object => V.Object(ItemMembers(x.kids))
    case _ => V.Null
  }

  ghost function ItemValues(xs: seq<Item>): (r: seq<V.Json>)
    ensures |r| == |xs|
    ensures forall i :: 0 <= i < |r| ==> r[i] == ItemValue(xs[i])
    decreases xs, 0
  {
    if xs == [] then [] else [ItemValue(xs[0])] + ItemValues(xs[1..])
  }

  ghost function ItemMembers(xs: seq<Item>): (r: seq<V.Member>)
    ensures |r| == |xs|
    ensures forall i :: 0 <= i < |r| ==> r[i] == V.Member(Text(xs[i].key), ItemValue(xs[i]))
    decreases xs, 0
  {
    if xs == [] then [] else [V.Member(Text(xs[0].key), ItemValue(xs[0]))] + ItemMembers(xs[1..])
  }

  /** The contents of a tree have the tree's value. */
  lemma {:induction false} ImageValue(s: Shape)
    ensures ItemValue(Image(s)) == Value(s)
    decreases s, 1
  {
    hide Images, Values, Members, ItemValues, ItemMembers;
    ImageValues(s.kids);
  }

  lemma {:induction false} ImageValues(kids: seq<Shape>)
    ensures ItemValues(Images(kids)) == Values(kids) && ItemMembers(Images(kids)) == Members(kids)
    decreases kids, 0
  {
    hide Image, Value, ItemValue;
    if kids != [] {
      ImageValue(kids[0]);
      ImageValues(kids[1..]);
      assert Images(kids)[1..] == Images(kids[1..]) && Images(kids)[0] == Image(kids[0]);
      assert ItemValues(Images(kids)) == [ItemValue(Image(kids[0]))] + ItemValues(Images(kids[1..]));
      assert Images(kids)[0].key == kids[0].node.key by { assert Image(kids[0]).key == kids[0].node.key by { ImageKey(kids[0]); } }
    }
  }

  lemma ImageKey(s: Shape)
    ensures Image(s).key == s.node.key
  {
  }

  /** Every key there is a C string. */
  ghost predicate CStrings(x: Item) {
    (x.key.Some? ==> NulFree(x.key.value)) && forall i :: 0 <= i < |x.kids| ==> CStrings(x.kids[i])
  }

  /** Nothing is missing: types are known, strings have texts and members have keys. */
  ghost predicate Complete(x: Item) {
    && x.kind != Invalid
    && (x.kind == String ==> x.text.Some?)
    && (x.kind == Object ==> Keyed(x.kids))
    && (x.kind == Array || x.kind == Object ==> forall i :: 0 <= i < |x.kids| ==> Complete(x.kids[i]))
  }

  ghost predicate Keyed(xs: seq<Item>) {
    forall i {:trigger xs[i].key} :: 0 <= i < |xs| ==> xs[i].key.Some?
  }

  // ---------- lookup ----------

  /** `x` is a member with the key `name`. */
  ghost predicate Named(x: Item, name: seq<byte>, cs: bool) {
    x.key.Some? && C.SameKey(x.key.value, name, cs)
  }

  /** The first member called `name` in a well-linked object, or null. */
  method GetObjectItem(obj: Node?, name: Option<seq<byte>>, cs: bool, ghost s: Shape, ghost x: Item)
    returns (r: Node?, ghost index: nat)
    requires obj != null ==> s.node == obj && Holds(s, x) && CStrings(x)
    requires name.Some? ==> NulFree(name.value)
    ensures obj == null || name == None ==> r == null
    ensures r != null ==>
      && obj != null && name.Some? && index < |s.kids| && |s.kids| == |x.kids| && s.kids[index].node == r
      && Named(x.kids[index], name.value, cs)
      && forall j :: 0 <= j < index ==> !Named(x.kids[j], name.value, cs)
    ensures obj != null && name.Some? && r == null && (!cs || Keyed(x.kids)) ==>
      forall j :: 0 <= j < |x.kids| ==> !Named(x.kids[j], name.value, cs)
  {
    hide Holds, Keyed, C.SameKey, CStrings;
    r, index := null, 0;
    if obj == null || name == None {
      return;
    }
    ShapeAllocated(s);
    HoldsRoot(s, x);
    var current := obj.child;
    var more := Wanted(current, name.value, cs, s, x, index);
    while more
      invariant index <= |s.kids| && current == (if index < |s.kids| then s.kids[index].node else null)
      invariant Holds(s, x)
      invariant forall j :: 0 <= j < index ==> !Named(x.kids[j], name.value, cs)
      invariant more <==> index < |s.kids| && !Named(x.kids[index], name.value, cs) && (cs ==> x.kids[index].key.Some?)
      decreases |s.kids| - index
    {
      HoldsKid(s, x, index);
      current := current.next;
      index := index + 1;
      more := Wanted(current, name.value, cs, s, x, index);
    }
    if current == null {
      return;
    }
    HoldsKid(s, x, index);
    if current.key == None {
      if Keyed(x.kids) { KeyedAt(x.kids, index); }
      return;
    }
    r := current;
  }

  lemma KeyedAt(xs: seq<Item>, i: nat)
    requires Keyed(xs) && i < |xs|
    ensures xs[i].key.Some?
  {
  }

  /** The loop condition of the lookup: the search goes on past `current`. */
  method Wanted(current: Node?, name: seq<byte>, cs: bool, ghost s: Shape, ghost x: Item, ghost index: nat)
    returns (more: bool)
    requires Holds(s, x) && CStrings(x) && NulFree(name) && |s.kids| == |x.kids|
    requires current == (if index < |s.kids| then s.kids[index].node else null)
    ensures more <==> index < |s.kids| && !Named(x.kids[index], name, cs) && (cs ==> x.kids[index].key.Some?)
  {
    hide Holds;
    if current == null {
      return false;
    }
    HoldsKid(s, x, index);
    assert CStrings(x.kids[index]);
    if cs {
      more := current.key.Some? && name != current.key.value;
    } else {
      var order := CaseInsensitiveStrcmp(Some(name), current.key);
      more := order != 0;
    }
  }

  /** The first match among the items is what looking up the object's value finds. */
  lemma {:induction false} FirstMatch(xs: seq<Item>, name: seq<byte>, cs: bool, index: nat)
    requires Keyed(xs) && index <= |xs|
    requires forall j :: 0 <= j < index ==> !Named(xs[j], name, cs)
    requires index < |xs| ==> Named(xs[index], name, cs)
    ensures C.Lookup(ItemMembers(xs), name, cs) == index
    decreases index
  {
    hide C.Fold, C.SameKey, ItemValue;
    if xs != [] && xs[0].key.Some? { C.FoldMeans(xs[0].key.value, name, cs); }
    if index > 0 {
      assert xs[0].key.Some? && !Named(xs[0], name, cs);
      assert ItemMembers(xs)[1..] == ItemMembers(xs[1..]);
      FirstMatch(xs[1..], name, cs, index - 1);
    }
  }

  // ---------- comparison ----------

  lemma {:induction false} ItemsPointwise(xs: seq<V.Json>, ys: seq<V.Json>, cs: bool)
    ensures C.CompareItems(xs, ys, cs) <==>
            |xs| == |ys| && forall i :: 0 <= i < |xs| ==> C.Compare(xs[i], ys[i], cs)
    decreases xs
  {
    hide C.Compare;
    if xs != [] && ys != [] {
      ItemsPointwise(xs[1..], ys[1..], cs);
      var xt, yt := xs[1..], ys[1..];
      assert forall i :: 0 <= i < |xt| ==> xt[i] == xs[i + 1];
      assert forall i :: 0 <= i < |yt| ==> yt[i] == ys[i + 1];
      if |xs| == |ys| && forall i :: 0 <= i < |xs| ==> C.Compare(xs[i], ys[i], cs) {
        forall i | 0 <= i < |xt| ensures C.Compare(xt[i], yt[i], cs) {
          assert C.Compare(xs[i + 1], ys[i + 1], cs);
        }
      }
      if C.CompareItems(xs, ys, cs) {
        forall i | 0 <= i < |xs| ensures C.Compare(xs[i], ys[i], cs) {
          if i > 0 { assert C.Compare(xt[i - 1], yt[i - 1], cs); }
        }
      }
    }
  }

  ghost predicate FoundAt(ms: seq<V.Member>, ns: seq<V.Member>, cs: bool, i: nat)
    requires i < |ms|
  {
    var j := C.Lookup(ns, ms[i].key, cs);
    j < |ns| && C.Compare(ms[i].value, ns[j].value, cs)
  }

  lemma {:induction false} MembersPointwise(ms: seq<V.Member>, ns: seq<V.Member>, cs: bool)
    ensures C.MembersFound(ms, ns, cs) <==> forall i :: 0 <= i < |ms| ==> FoundAt(ms, ns, cs, i)
    decreases ms
  {
    hide C.Compare, C.Lookup;
    if ms != [] {
      MembersPointwise(ms[1..], ns, cs);
      var mt := ms[1..];
      assert forall i :: 0 <= i < |mt| ==> (FoundAt(mt, ns, cs, i) <==> FoundAt(ms, ns, cs, i + 1));
      if C.MembersFound(ms, ns, cs) {
        forall i | 0 <= i < |ms| ensures FoundAt(ms, ns, cs, i) {
          if i > 0 { assert FoundAt(mt, ns, cs, i - 1); }
        }
      }
      if forall i :: 0 <= i < |ms| ==> FoundAt(ms, ns, cs, i) {
        assert FoundAt(ms, ns, cs, 0);
        forall i | 0 <= i < |mt| ensures FoundAt(mt, ns, cs, i) { assert FoundAt(ms, ns, cs, i + 1); }
      }
    }
  }

  ghost function Weight(x: Item): (n: nat)
    ensures n > 0
  {
    1 + WeightAll(x.kids)
  }

  ghost function WeightAll(xs: seq<Item>): nat {
    if xs == [] then 0 else Weight(xs[0]) + WeightAll(xs[1..])
  }

  lemma {:induction false} KidWeight(x: Item, i: nat)
    requires i < |x.kids|
    ensures Weight(x.kids[i]) < Weight(x)
  {
    WeightAt(x.kids, i);
  }

  lemma {:induction false} WeightAt(xs: seq<Item>, i: nat)
    requires i < |xs|
    ensures Weight(xs[i]) <= WeightAll(xs)
    decreases i
  {
    hide Weight;
    if i > 0 {
      WeightAt(xs[1..], i - 1);
    }
  }

  /** Nothing is missing in the two trees and their values compare equal. */
  ghost predicate Equal(x: Item, y: Item, cs: bool) {
    Complete(x) && Complete(y) && C.Compare(ItemValue(x), ItemValue(y), cs)
  }

  /**
   Compare two items. Complete trees with equal values always compare equal, and so does an
   item with itself. Otherwise the answer is exact wherever no item meets itself, which holds
   for disjoint trees and for any two different items of one tree.
   */
  method Compare(a: Node?, b: Node?, cs: bool, ghost s: Shape, ghost t: Shape, ghost x: Item, ghost y: Item)
    returns (r: bool)
    requires a != null ==> s.node == a && Holds(s, x) && CStrings(x)
    requires b != null ==> t.node == b && Holds(t, y) && CStrings(y)
    ensures a == null || b == null ==> !r
    ensures a != null && a == b ==> (r <==> x.kind != Invalid)
    ensures a != null && b != null && Equal(x, y, cs) ==> r
    ensures a != null && b != null && r && Apart(s, t) ==> Equal(x, y, cs)
    decreases Weight(x) + Weight(y), 2
  {
    hide Holds, CStrings, C.CompareItems, C.MembersFound, C.CloseNumbers, Keyed;
    if a == null || b == null {
      return false;
    }
    HoldsRoot(s, x);
    HoldsRoot(t, y);
    ShapeAllocated(s);
    if a.kind != b.kind || a.kind == Invalid {
      return false;
    }
    if a == b {
      return true;
    }
    match a.kind
    case False => return true;
    case True => return true;
    case Null => return true;
    case Number => return C.CloseNumbers(a.valuedouble, b.valuedouble);
    case String => return a.valuestring.Some? && b.valuestring.Some? && a.valuestring == b.valuestring;
    case Array => r := CompareArrays(a, b, cs, s, t, x, y);
    case Object => r := CompareObjects(a, b, cs, s, t, x, y);
  }

  method CompareArrays(a: Node, b: Node, cs: bool, ghost s: Shape, ghost t: Shape, ghost x: Item, ghost y: Item)
    returns (r: bool)
    requires s.node == a && Holds(s, x) && CStrings(x) && t.node == b && Holds(t, y) && CStrings(y)
    requires x.kind == Array && y.kind == Array
    ensures Equal(x, y, cs) ==> r
    ensures r && Apart(s, t) ==> Equal(x, y, cs)
    decreases Weight(x) + Weight(y), 1
  {
    hide Holds, CStrings, Equal, Nodes, Apart, Weight;
    HoldsRoot(s, x);
    HoldsRoot(t, y);
    ShapeAllocated(s);
    ShapeAllocated(t);
    EqualArrays(x, y, cs);
    var a_element, b_element := a.child, b.child;
    ghost var i := 0;
    while a_element != null && b_element != null
      invariant i <= |s.kids| && i <= |t.kids|
      invariant a_element == (if i < |s.kids| then s.kids[i].node else null)
      invariant b_element == (if i < |t.kids| then t.kids[i].node else null)
      invariant Holds(s, x) && Holds(t, y)
      invariant Apart(s, t) ==> forall j :: 0 <= j < i ==> Equal(x.kids[j], y.kids[j], cs)
      decreases |s.kids| - i
    {
      HoldsKid(s, x, i);
      HoldsKid(t, y, i);
      KidStrings(x, i);
      KidStrings(y, i);
      KidWeight(x, i);
      KidWeight(y, i);
      ApartKids(s, t, i, i);
      var same := Compare(a_element, b_element, cs, s.kids[i], t.kids[i], x.kids[i], y.kids[i]);
      if !same {
        return false;
      }
      HoldsKid(s, x, i);
      HoldsKid(t, y, i);
      a_element, b_element := a_element.next, b_element.next;
      i := i + 1;
    }
    if a_element != b_element {
      return false;
    }
    r := true;
  }

  lemma KidStrings(x: Item, i: nat)
    requires CStrings(x) && i < |x.kids|
    ensures CStrings(x.kids[i]) && (x.kids[i].key.Some? ==> NulFree(x.kids[i].key.value))
  {
  }

  lemma {:induction false} EqualArrays(x: Item, y: Item, cs: bool)
    requires x.kind == Array && y.kind == Array
    ensures Equal(x, y, cs) <==>
            |x.kids| == |y.kids| && forall j :: 0 <= j < |x.kids| ==> Equal(x.kids[j], y.kids[j], cs)
  {
    hide C.CompareItems, C.MembersFound, C.CloseNumbers, ItemValues, ItemMembers, Keyed;
    var xs, ys := ItemValues(x.kids), ItemValues(y.kids);
    assert C.Compare(ItemValue(x), ItemValue(y), cs) == C.CompareItems(xs, ys, cs);
    ItemsPointwise(xs, ys, cs);
    if Equal(x, y, cs) {
      forall j | 0 <= j < |x.kids| ensures Equal(x.kids[j], y.kids[j], cs) {
        assert C.Compare(xs[j], ys[j], cs);
      }
    }
    if |x.kids| == |y.kids| && forall j :: 0 <= j < |x.kids| ==> Equal(x.kids[j], y.kids[j], cs) {
      forall j | 0 <= j < |x.kids| ensures C.Compare(xs[j], ys[j], cs) && Complete(x.kids[j]) && Complete(y.kids[j]) {
        assert Equal(x.kids[j], y.kids[j], cs);
      }
    }
  }

  method CompareObjects(a: Node, b: Node, cs: bool, ghost s: Shape, ghost t: Shape, ghost x: Item, ghost y: Item)
    returns (r: bool)
    requires s.node == a && Holds(s, x) && CStrings(x) && t.node == b && Holds(t, y) && CStrings(y)
    requires x.kind == Object && y.kind == Object
    ensures Equal(x, y, cs) ==> r
    ensures r && Apart(s, t) ==> Equal(x, y, cs)
    decreases Weight(x) + Weight(y), 1
  {
    hide Holds, CStrings, Equal, Nodes, Apart, Weight, Keyed, C.MembersFound, Complete;
    ShapeAllocated(s);
    ShapeAllocated(t);
    EqualObjects(x, y, cs);
    ApartSymmetric(s, t);
    r := CompareMembers(a, b, cs, s, t, x, y);
    if r {
      r := CompareMembers(b, a, cs, t, s, y, x);
    }
  }

  lemma {:induction false} EqualObjects(x: Item, y: Item, cs: bool)
    requires x.kind == Object && y.kind == Object
    ensures Equal(x, y, cs) <==>
            && Keyed(x.kids) && (forall i :: 0 <= i < |x.kids| ==> Complete(x.kids[i]))
            && Keyed(y.kids) && (forall i :: 0 <= i < |y.kids| ==> Complete(y.kids[i]))
            && C.MembersFound(ItemMembers(x.kids), ItemMembers(y.kids), cs)
            && C.MembersFound(ItemMembers(y.kids), ItemMembers(x.kids), cs)
  {
    hide C.CompareItems, C.MembersFound, C.CloseNumbers, ItemValues, ItemMembers, Keyed;
  }

  /** What one loop over the members of `x` checks of member `i`. */
  ghost predicate Matched(x: Item, y: Item, cs: bool, i: nat)
    requires i < |x.kids|
  {
    && x.kids[i].key.Some? && Complete(x.kids[i])
    && (Keyed(y.kids) ==> FoundAt(ItemMembers(x.kids), ItemMembers(y.kids), cs, i))
  }

  /** One of the two loops over an object: look every member of `a` up in `b`. */
  method CompareMembers(a: Node, b: Node, cs: bool, ghost s: Shape, ghost t: Shape, ghost x: Item, ghost y: Item)
    returns (r: bool)
    requires s.node == a && Holds(s, x) && CStrings(x) && t.node == b && Holds(t, y) && CStrings(y)
    requires x.kind == Object && y.kind == Object
    ensures (&& Keyed(x.kids) && (forall i :: 0 <= i < |x.kids| ==> Complete(x.kids[i]))
             && Keyed(y.kids) && (forall i :: 0 <= i < |y.kids| ==> Complete(y.kids[i]))
             && C.MembersFound(ItemMembers(x.kids), ItemMembers(y.kids), cs)) ==> r
    ensures r && Apart(s, t) ==>
      && Keyed(x.kids) && (forall i :: 0 <= i < |x.kids| ==> Complete(x.kids[i]))
      && (Keyed(y.kids) ==> C.MembersFound(ItemMembers(x.kids), ItemMembers(y.kids), cs))
    decreases Weight(x) + Weight(y), 0
  {
    hide Holds, CStrings, Equal, Nodes, Apart, NodesOf, Weight, Keyed, C.MembersFound, Complete, FoundAt, Matched, Named,
         ItemMembers, ItemValue, NulFree;
    HoldsRoot(s, x);
    ShapeAllocated(s);
    ShapeAllocated(t);
    MembersPointwise(ItemMembers(x.kids), ItemMembers(y.kids), cs);
    var element := a.child;
    ghost var i := 0;
    while element != null
      invariant i <= |s.kids|
      invariant element == (if i < |s.kids| then s.kids[i].node else null)
      invariant Holds(s, x) && Holds(t, y)
      invariant Apart(s, t) ==> forall j :: 0 <= j < i ==> Matched(x, y, cs, j)
      decreases |s.kids| - i
    {
      HoldsKid(s, x, i);
      KidStrings(x, i);
      var other;
      ghost var j;
      other, j := GetObjectItem(b, element.key, cs, t, y);
      if other == null {
        NotFound(x, y, cs, i);
        return false;
      }
      HoldsKid(s, x, i);
      HoldsKid(t, y, j);
      KidStrings(y, j);
      KidWeight(x, i);
      KidWeight(y, j);
      ApartKids(s, t, i, j);
      var same := Compare(element, other, cs, s.kids[i], t.kids[j], x.kids[i], y.kids[j]);
      MatchedBy(x, y, cs, i, j);
      if !same {
        return false;
      }
      HoldsKid(s, x, i);
      element := element.next;
      i := i + 1;
    }
    r := true;
    if Apart(s, t) {
      AllMatched(x, y, cs);
    }
  }

  lemma {:induction false} NotFound(x: Item, y: Item, cs: bool, i: nat)
    requires i < |x.kids|
    requires x.kids[i].key.Some? && Keyed(y.kids) ==>
      forall j :: 0 <= j < |y.kids| ==> !Named(y.kids[j], x.kids[i].key.value, cs)
    ensures Keyed(x.kids) && Keyed(y.kids) ==> !FoundAt(ItemMembers(x.kids), ItemMembers(y.kids), cs, i)
  {
    hide Keyed, C.Fold, C.Compare, C.Lookup, Named, ItemValue, ItemMembers;
    if Keyed(x.kids) && Keyed(y.kids) {
      KeyedAt(x.kids, i);
      FirstMatch(y.kids, x.kids[i].key.value, cs, |y.kids|);
    }
  }

  lemma {:induction false} MatchedBy(x: Item, y: Item, cs: bool, i: nat, j: nat)
    requires i < |x.kids| && j < |y.kids| && x.kids[i].key.Some?
    requires Named(y.kids[j], x.kids[i].key.value, cs)
    requires forall k :: 0 <= k < j ==> !Named(y.kids[k], x.kids[i].key.value, cs)
    ensures Equal(x.kids[i], y.kids[j], cs) ==> Matched(x, y, cs, i)
    ensures Complete(x.kids[i]) && Complete(y.kids[j]) && !Equal(x.kids[i], y.kids[j], cs) && Keyed(y.kids)
            ==> !FoundAt(ItemMembers(x.kids), ItemMembers(y.kids), cs, i)
  {
    hide Keyed, C.Fold, C.Compare, C.Lookup, Named, ItemValue, ItemMembers, Complete;
    if Keyed(y.kids) {
      FirstMatch(y.kids, x.kids[i].key.value, cs, j);
    }
  }

  lemma {:induction false} AllMatched(x: Item, y: Item, cs: bool)
    requires forall i :: 0 <= i < |x.kids| ==> Matched(x, y, cs, i)
    ensures Keyed(x.kids) && forall i :: 0 <= i < |x.kids| ==> Complete(x.kids[i])
    ensures Keyed(y.kids) ==> C.MembersFound(ItemMembers(x.kids), ItemMembers(y.kids), cs)
  {
    hide FoundAt, Complete, C.MembersFound, ItemMembers;
    MembersPointwise(ItemMembers(x.kids), ItemMembers(y.kids), cs);
    forall i | 0 <= i < |x.kids| ensures x.kids[i].key.Some? && Complete(x.kids[i]) {
      assert Matched(x, y, cs, i);
    }
    if Keyed(y.kids) {
      forall i | 0 <= i < |x.kids| ensures FoundAt(ItemMembers(x.kids), ItemMembers(y.kids), cs, i) {
        assert Matched(x, y, cs, i);
      }
    }
  }

  // ---------- where no item meets itself ----------

  /** Whatever two items a comparison of `s` and `t` can bring together, they are different. */
  ghost predicate Apart(s: Shape, t: Shape)
    decreases s
  {
    s.node != t.node && forall i, j :: 0 <= i < |s.kids| && 0 <= j < |t.kids| ==> Apart(s.kids[i], t.kids[j])
  }

  lemma ApartKids(s: Shape, t: Shape, i: nat, j: nat)
    requires i < |s.kids| && j < |t.kids|
    ensures Apart(s, t) ==> Apart(s.kids[i], t.kids[j])
  {
  }

  lemma {:induction false} ApartSymmetric(s: Shape, t: Shape)
    ensures Apart(s, t) ==> Apart(t, s)
    decreases s
  {
    if Apart(s, t) {
      forall i, j | 0 <= i < |s.kids| && 0 <= j < |t.kids| ensures Apart(t.kids[j], s.kids[i]) {
        ApartSymmetric(s.kids[i], t.kids[j]);
      }
    }
  }

  /** Disjoint trees. */
  lemma {:induction false} DisjointApart(s: Shape, t: Shape)
    requires Nodes(s) !! Nodes(t)
    ensures Apart(s, t)
    decreases s
  {
    hide Apart;
    RootIn(s);
    RootIn(t);
    forall i, j | 0 <= i < |s.kids| && 0 <= j < |t.kids| ensures Apart(s.kids[i], t.kids[j]) {
      ImageAt(s.kids, i);
      ImageAt(t.kids, j);
      DisjointApart(s.kids[i], t.kids[j]);
    }
    ApartFromKids(s, t);
  }

  lemma ApartFromKids(s: Shape, t: Shape)
    requires s.node != t.node
    requires forall i, j :: 0 <= i < |s.kids| && 0 <= j < |t.kids| ==> Apart(s.kids[i], t.kids[j])
    ensures Apart(s, t)
  {
  }

  lemma RootIn(s: Shape)
    ensures s.node in Nodes(s)
  {
  }

  /** `a` stands in `s` at the end of a path of child positions. */
  ghost predicate At(s: Shape, path: seq<nat>, a: Shape) {
    if path == [] then a == s else path[0] < |s.kids| && At(s.kids[path[0]], path[1..], a)
  }

  lemma {:induction false} AtNodes(s: Shape, path: seq<nat>, a: Shape)
    requires At(s, path, a)
    ensures Nodes(a) <= Nodes(s)
    ensures path != [] ==> Nodes(a) <= NodesOf(s.kids)
    decreases path
  {
    hide NodesOf;
    if path != [] {
      AtNodes(s.kids[path[0]], path[1..], a);
      ImageAt(s.kids, path[0]);
    }
  }

  lemma {:induction false} AtKid(s: Shape, path: seq<nat>, a: Shape, i: nat)
    requires At(s, path, a) && i < |a.kids|
    ensures At(s, path + [i], a.kids[i])
    decreases path
  {
    if path == [] {
      assert [] + [i] == [i] && [i][1..] == [];
    } else {
      assert (path + [i])[1..] == path[1..] + [i];
      AtKid(s.kids[path[0]], path[1..], a, i);
    }
  }

  lemma {:induction false} KidsDisjoint(kids: seq<Shape>, i: nat, j: nat)
    requires Forest(kids) && i < j < |kids|
    ensures Nodes(kids[i]) !! Nodes(kids[j])
    decreases i
  {
    hide Tree, Nodes;
    if i == 0 {
      ImageAt(kids[1..], j - 1);
    } else {
      KidsDisjoint(kids[1..], i - 1, j - 1);
    }
  }

  /** Different places in one tree hold different items. */
  lemma {:induction false} DifferentPlaces(s: Shape, p: seq<nat>, a: Shape, q: seq<nat>, b: Shape)
    requires Tree(s) && At(s, p, a) && At(s, q, b) && p != q
    ensures a.node != b.node
    decreases p
  {
    hide Forest, IsList, NodesOf, Nodes;
    if p == [] {
      AtNodes(s, q, b);
      RootIn(b);
    } else if q == [] {
      AtNodes(s, p, a);
      RootIn(a);
    } else {
      AtNodes(s.kids[p[0]], p[1..], a);
      AtNodes(s.kids[q[0]], q[1..], b);
      RootIn(a);
      RootIn(b);
      if p[0] < q[0] {
        KidsDisjoint(s.kids, p[0], q[0]);
      } else if q[0] < p[0] {
        KidsDisjoint(s.kids, q[0], p[0]);
      } else {
        ForestAt(s.kids, p[0]);
        assert p == [p[0]] + p[1..] && q == [q[0]] + q[1..];
        DifferentPlaces(s.kids[p[0]], p[1..], a, q[1..], b);
      }
    }
  }

  /**
   Any two different items of one tree, nested or not: a comparison brings the places below
   them together position by position, and these never coincide.
   */
  lemma {:induction false} PlacesApart(s: Shape, p: seq<nat>, a: Shape, q: seq<nat>, b: Shape)
    requires Tree(s) && At(s, p, a) && At(s, q, b) && p != q
    ensures Apart(a, b)
    decreases a
  {
    hide Tree, At;
    DifferentPlaces(s, p, a, q, b);
    forall i, j | 0 <= i < |a.kids| && 0 <= j < |b.kids| ensures Apart(a.kids[i], b.kids[j]) {
      AtKid(s, p, a, i);
      AtKid(s, q, b, j);
      assert (p + [i])[..|p|] == p && (q + [j])[..|q|] == q;
      PlacesApart(s, p + [i], a.kids[i], q + [j], b.kids[j]);
    }
    ApartFromKids(a, b);
  }

  // ---------- copies ----------

  lemma {:induction false} SameImage(s: Shape, t: Shape)
    requires JsonCopy.Same(s, t)
    ensures Image(s) == Image(t)
    decreases s, 1
  {
    hide Images, JsonCopy.SameAll;
    SameImages(s.kids, t.kids);
  }

  lemma {:induction false} SameImages(xs: seq<Shape>, ys: seq<Shape>)
    requires JsonCopy.SameAll(xs, ys)
    ensures Images(xs) == Images(ys)
    decreases xs, 0
  {
    hide Image, JsonCopy.Same;
    if xs != [] {
      SameImage(xs[0], ys[0]);
      SameImages(xs[1..], ys[1..]);
    }
  }

  /** A deep copy of a complete tree compares equal to it exactly when members with one key agree. */
  lemma {:induction false} CopyComparesEqual(s: Shape, t: Shape, cs: bool)
    requires JsonCopy.Same(s, t) && Complete(Image(s)) && C.PlainNumbers(Value(s))
    ensures Equal(Image(s), Image(t), cs) <==> C.Coherent(Value(s), cs)
    ensures C.DistinctKeys(Value(s), cs) ==> Equal(Image(s), Image(t), cs)
  {
    hide JsonCopy.Same, Complete, C.PlainNumbers, Value, Image, ItemValue, C.Compare, C.Coherent, C.DistinctKeys;
    SameImage(s, t);
    ImageValue(s);
    C.CompareIsPartialEquivalence(Value(s), Value(s), Value(s), cs);
  }
}
