/**
 cJSON items on the heap. Siblings form a doubly linked list whose head's `prev`
 caches the tail; `IsList` is that shape, and each list edit is proved to be the
 matching edit of a sequence.
 */
module JsonNode {
  import opened Bytes

  datatype Kind = Invalid | False | True | Null | Number | String | Array | Object

  class Node {
    var next: Node?
    var prev: Node?
    var child: Node?
    var kind: Kind
    var valuestring: Option<seq<byte>>
    var valueint: int
    var valuedouble: real
    var key: Option<seq<byte>>

    /** A zeroed item. */
    constructor ()
      ensures next == null && prev == null && child == null && kind == Invalid
      ensures valuestring == None && valueint == 0 && valuedouble == 0.0 && key == None
    {
      next, prev, child, kind := null, null, null, Invalid;
      valuestring, valueint, valuedouble, key := None, 0, 0.0, None;
    }
  }

  // ---------- the shape of a sibling list ----------

  ghost predicate Distinct(items: seq<Node>) {
    forall i, j :: 0 <= i < j < |items| ==> items[i] != items[j]
  }

  ghost function NextOf(items: seq<Node>, i: nat): Node?
    requires i < |items|
  {
    if i + 1 < |items| then items[i + 1] else null
  }

  ghost function PrevOf(items: seq<Node>, i: nat): Node?
    requires i < |items|
  {
    if i == 0 then items[|items| - 1] else items[i - 1]
  }

  ghost function FirstOf(items: seq<Node>): Node? {
    if items == [] then null else items[0]
  }

  ghost predicate IsList(parent: Node, items: seq<Node>)
    reads parent`child, items`next, items`prev
  {
    && parent.child == FirstOf(items)
    && Distinct(items)
    && (forall i {:trigger items[i].next} :: 0 <= i < |items| ==> items[i].next == NextOf(items, i))
    && (forall i {:trigger items[i].prev} :: 0 <= i < |items| ==> items[i].prev == PrevOf(items, i))
  }

  /** A parent has one list of children: the shape determines it. */
  lemma {:induction false} ListIsUnique(parent: Node, xs: seq<Node>, ys: seq<Node>)
    requires IsList(parent, xs) && IsList(parent, ys)
    ensures xs == ys
  {
    if xs != [] {
      SameFrom(xs, ys, 0, parent);
    }
  }

  lemma {:induction false} SameFrom(xs: seq<Node>, ys: seq<Node>, i: nat, parent: Node)
    requires IsList(parent, xs) && IsList(parent, ys)
    requires i < |xs| && i < |ys| && forall j :: 0 <= j <= i ==> xs[j] == ys[j]
    ensures xs == ys
    decreases |xs| - i
  {
    assert xs[i].next == NextOf(xs, i) && ys[i].next == NextOf(ys, i);
    if i + 1 < |xs| {
      SameFrom(xs, ys, i + 1, parent);
    }
  }

  // ---------- edits ----------

  /** A possibly missing object, as a frame. */
  ghost function Just(x: Node?): set<Node> {
    if x == null then {} else {x}
  }

  function Inserted(s: seq<Node>, k: nat, x: Node): seq<Node>
    requires k <= |s|
  {
    s[..k] + [x] + s[k..]
  }

  function Removed(s: seq<Node>, k: nat): seq<Node>
    requires k < |s|
  {
    s[..k] + s[k + 1..]
  }

  lemma {:induction false} RemovedIsList(parent: Node, items: seq<Node>, k: nat)
    requires k < |items| && Distinct(items)
    requires parent.child == if k == 0 then NextOf(items, 0) else items[0]
    requires forall i {:trigger items[i].next} :: 0 <= i < |items| && i != k ==>
      items[i].next == if i + 1 == k then NextOf(items, k) else NextOf(items, i)
    requires forall i {:trigger items[i].prev} :: 0 <= i < |items| && i != k ==>
      items[i].prev == if i == k + 1 || (i == 0 && k + 1 == |items|) then PrevOf(items, k) else PrevOf(items, i)
    ensures IsList(parent, Removed(items, k))
  {
    var r := Removed(items, k);
    forall j | 0 <= j < |r|
      ensures r[j] == items[if j < k then j else j + 1]
      ensures r[j].next == NextOf(r, j)
      ensures r[j].prev == PrevOf(r, j)
    {
    }
  }

  lemma {:induction false} InsertedIsList(parent: Node, items: seq<Node>, k: nat, x: Node)
    requires k < |items| && Distinct(items) && x !in items
    requires parent.child == if k == 0 then x else items[0]
    requires x.next == items[k] && x.prev == PrevOf(items, k)
    requires forall i {:trigger items[i].next} :: 0 <= i < |items| ==> items[i].next == if i + 1 == k then x else NextOf(items, i)
    requires forall i {:trigger items[i].prev} :: 0 <= i < |items| ==> items[i].prev == if i == k then x else PrevOf(items, i)
    ensures IsList(parent, Inserted(items, k, x))
  {
    var r := Inserted(items, k, x);
    InsertedAt(items, k, x);
    assert parent.child == FirstOf(r);
    forall j | 0 <= j < |r| ensures r[j].next == NextOf(r, j) {
      if j < k { assert items[j].next == if j + 1 == k then x else NextOf(items, j); }
      if j > k { assert items[j - 1].next == NextOf(items, j - 1); }
    }
    forall j | 0 <= j < |r| ensures r[j].prev == PrevOf(r, j) {
      if j < k { assert items[j].prev == PrevOf(items, j); }
      if j > k { assert items[j - 1].prev == if j - 1 == k then x else PrevOf(items, j - 1); }
    }
  }

  lemma {:induction false} InsertedAt(items: seq<Node>, k: nat, x: Node)
    requires k < |items| && Distinct(items) && x !in items
    ensures var r := Inserted(items, k, x);
            && |r| == |items| + 1 && Distinct(r)
            && forall j :: 0 <= j < |r| ==> r[j] == if j < k then items[j] else if j == k then x else items[j - 1]
  {
  }

  lemma {:induction false} ReplacedIsList(parent: Node, items: seq<Node>, k: nat, x: Node)
    requires k < |items| && Distinct(items) && x !in items
    requires parent.child == if k == 0 then x else items[0]
    requires x.next == NextOf(items, k) && x.prev == if |items| == 1 then x else PrevOf(items, k)
    requires forall i {:trigger items[i].next} :: 0 <= i < |items| && i != k ==> items[i].next == if i + 1 == k then x else NextOf(items, i)
    requires forall i {:trigger items[i].prev} :: 0 <= i < |items| && i != k ==>
      items[i].prev == if i == k + 1 || (i == 0 && k + 1 == |items|) then x else PrevOf(items, i)
    ensures IsList(parent, items[k := x])
  {
    var r := items[k := x];
    assert parent.child == FirstOf(r);
    forall j | 0 <= j < |r| ensures r[j].next == NextOf(r, j) {
      if j != k { assert items[j].next == if j + 1 == k then x else NextOf(items, j); }
    }
    forall j | 0 <= j < |r| ensures r[j].prev == PrevOf(r, j) {
      if j != k { assert items[j].prev == if j == k + 1 || (j == 0 && k + 1 == |items|) then x else PrevOf(items, j); }
    }
    forall i, j | 0 <= i < j < |r| ensures r[i] != r[j] {
      assert i != k && j != k ==> items[i] != items[j];
    }
  }

  method SuffixObject(prev: Node, item: Node)
    modifies prev`next, item`prev
    ensures prev.next == item && item.prev == prev
    ensures prev != item ==> item.next == old(item.next)
  {
    prev.next := item;
    item.prev := prev;
  }

  /** A sequence that repeats an element is not the list of any parent. */
  lemma {:induction false} RepeatedIsNoList(parent: Node, items: seq<Node>, i: nat, j: nat)
    requires i < j < |items| && items[i] == items[j]
    ensures !IsList(parent, items)
  {
  }

  lemma {:induction false} CachedTail(parent: Node, xs: seq<Node>)
    requires parent.child != null && IsList(parent, xs)
    ensures parent.child.prev != null && parent.child.prev.next == null
  {
    assert xs[0].prev == PrevOf(xs, 0) && xs[|xs| - 1].next == NextOf(xs, |xs| - 1);
  }

  /** When the cached tail has a next item, the links under a parent form no list at all. */
  lemma {:induction false} OpenTailIsNoList(parent: Node)
    requires parent.child != null && parent.child.prev != null && parent.child.prev.next != null
    ensures forall xs: seq<Node> :: !IsList(parent, xs)
  {
    hide IsList;
    forall xs: seq<Node> ensures !IsList(parent, xs) {
      if IsList(parent, xs) {
        CachedTail(parent, xs);
      }
    }
  }

  /**
   Append. The item's `next` is cleared only when the list was empty, so behind other items
   the result is a list exactly when that link was null and the item is not already there.
   Otherwise the links form no list at all.
   */
  method AddItemToArray(parent: Node?, item: Node?, ghost items: seq<Node>) returns (ok: bool)
    requires parent != null ==> IsList(parent, items)
    modifies Just(parent)`child, items`next, items`prev, Just(item)`prev, Just(item)`next
    ensures ok <==> item != null && parent != null && parent != item
    ensures ok ==> (IsList(parent, items + [item]) <==> items == [] || (item !in items && old(item.next) == null))
    ensures ok && !(items == [] || (item !in items && old(item.next) == null)) ==> forall xs: seq<Node> :: !IsList(parent, xs)
    ensures !ok && parent != null ==> IsList(parent, items)
  {
    if item == null || parent == null || parent == item {
      return false;
    }
    var child := parent.child;
    if child == null {
      parent.child := item;
      item.prev := item;
      item.next := null;
    } else if child.prev != null {
      assert child == items[0] && child.prev == PrevOf(items, 0);
      assert forall i {:trigger items[i].next} :: 0 <= i < |items| ==> items[i].next == NextOf(items, i);
      SuffixObject(child.prev, item);
      parent.child.prev := item;
      if item in items || old(item.next) != null {
        OpenTailIsNoList(parent);
      }
    }
    return true;
  }

  method GetArrayItem(parent: Node?, index: nat, ghost items: seq<Node>) returns (r: Node?)
    requires parent != null ==> IsList(parent, items)
    ensures r == if parent != null && index < |items| then items[index] else null
  {
    if parent == null {
      return null;
    }
    r := parent.child;
    var i := index;
    ghost var at := 0;
    while r != null && i > 0
      invariant 0 <= i <= index && at == index - i
      invariant at <= |items| && (r == null <==> at == |items|)
      invariant at < |items| ==> r == items[at]
      decreases i
    {
      assert items[at].next == NextOf(items, at);
      i := i - 1;
      r := r.next;
      at := at + 1;
    }
  }

  method DetachItemViaPointer(parent: Node?, item: Node?, ghost items: seq<Node>, ghost k: nat) returns (r: Node?)
    requires parent != null && item != null ==> IsList(parent, items) && k < |items| && items[k] == item
    modifies Just(parent)`child, items`next, items`prev
    ensures r == if parent == null then null else item
    ensures r != null ==> IsList(parent, Removed(items, k)) && r.next == null && r.prev == null
  {
    if parent == null || item == null {
      return null;
    }
    assert item.next == NextOf(items, k) && item.prev == PrevOf(items, k);
    if item != parent.child {
      item.prev.next := item.next;
    }
    if item.next != null {
      item.next.prev := item.prev;
    }
    if item == parent.child {
      parent.child := item.next;
    } else if item.next == null {
      parent.child.prev := item.prev;
    }
    item.prev := null;
    item.next := null;
    RemovedIsList(parent, items, k);
    return item;
  }

  method DetachItemFromArray(parent: Node?, which: int, ghost items: seq<Node>) returns (r: Node?)
    requires parent != null ==> IsList(parent, items)
    modifies Just(parent)`child, items`next, items`prev
    ensures r == if parent != null && 0 <= which < |items| then items[which] else null
    ensures r != null ==> IsList(parent, Removed(items, which)) && r.next == null && r.prev == null
  {
    hide IsList, Removed;
    if which < 0 {
      return null;
    }
    var item := GetArrayItem(parent, which, items);
    r := DetachItemViaPointer(parent, item, items, which);
  }

  method InsertItemInArray(parent: Node?, which: int, newitem: Node, ghost items: seq<Node>) returns (ok: bool)
    requires parent != null ==> IsList(parent, items)
    modifies Just(parent)`child, items`next, items`prev, newitem`prev, newitem`next
    ensures ok <==> parent != null && 0 <= which && (which < |items| || parent != newitem)
    ensures ok && which < |items| ==> (IsList(parent, Inserted(items, which, newitem)) <==> newitem !in items)
    ensures ok && which >= |items| ==>
      (IsList(parent, items + [newitem]) <==> items == [] || (newitem !in items && old(newitem.next) == null))
  {
    if which < 0 {
      return false;
    }
    var afterInserted := GetArrayItem(parent, which, items);
    if afterInserted == null {
      ok := AddItemToArray(parent, newitem, items);
      return;
    }
    LinkBefore(parent, newitem, afterInserted, items, which);
    return true;
  }

  /** The relinking half of an insertion. */
  method LinkBefore(parent: Node, newitem: Node, afterInserted: Node, ghost items: seq<Node>, ghost k: nat)
    requires IsList(parent, items) && k < |items| && items[k] == afterInserted
    modifies parent`child, items`next, items`prev, newitem`prev, newitem`next
    ensures IsList(parent, Inserted(items, k, newitem)) <==> newitem !in items
  {
    assert afterInserted.prev == PrevOf(items, k);
    newitem.next := afterInserted;
    newitem.prev := afterInserted.prev;
    afterInserted.prev := newitem;
    if afterInserted == parent.child {
      parent.child := newitem;
    } else {
      newitem.prev.next := newitem;
    }
    if newitem in items {
      InsertedRepeats(parent, items, k, newitem);
    } else {
      InsertedIsList(parent, items, k, newitem);
    }
  }

  lemma {:induction false} InsertedRepeats(parent: Node, items: seq<Node>, k: nat, x: Node)
    requires k <= |items| && x in items
    ensures !IsList(parent, Inserted(items, k, x))
  {
    hide IsList;
    var r := Inserted(items, k, x);
    var j :| 0 <= j < |items| && items[j] == x;
    if j < k {
      assert r[j] == x && r[k] == x;
      RepeatedIsNoList(parent, r, j, k);
    } else {
      assert r[j + 1] == x && r[k] == x;
      RepeatedIsNoList(parent, r, k, j + 1);
    }
  }

  method ReplaceItemViaPointer(parent: Node?, item: Node?, replacement: Node?, ghost items: seq<Node>, ghost k: nat)
    returns (ok: bool)
    requires parent != null && item != null ==> IsList(parent, items) && k < |items| && items[k] == item
    modifies Just(parent)`child, items`next, items`prev, Just(replacement)`next, Just(replacement)`prev
    ensures ok <==> parent != null && item != null && replacement != null
    ensures ok ==> (IsList(parent, items[k := replacement]) <==> replacement == item || replacement !in items)
    ensures ok && item != replacement ==> item.next == null && item.prev == null
  {
    if parent == null || replacement == null || item == null {
      return false;
    }
    if replacement == item {
      return true;
    }
    RelinkReplacement(parent, item, replacement, items, k);
    item.next := null;
    item.prev := null;
    if replacement in items {
      ReplacedRepeats(parent, items, k, replacement);
    }
    return true;
  }

  lemma {:induction false} ReplacedRepeats(parent: Node, items: seq<Node>, k: nat, x: Node)
    requires k < |items| && x in items && x != items[k]
    ensures !IsList(parent, items[k := x])
  {
    hide IsList;
    var j :| 0 <= j < |items| && items[j] == x;
    RepeatedIsNoList(parent, items[k := x], if j < k then j else k, if j < k then k else j);
  }

  /** The relinking half of a replacement: every sibling now points at `replacement`. */
  method RelinkReplacement(parent: Node, item: Node, replacement: Node, ghost items: seq<Node>, ghost k: nat)
    requires IsList(parent, items) && k < |items| && items[k] == item && replacement != item
    modifies parent`child, items`next, items`prev, replacement`next, replacement`prev
    ensures replacement !in items ==> IsList(parent, items[k := replacement])
  {
    assert item.next == NextOf(items, k) && item.prev == PrevOf(items, k);
    replacement.next := item.next;
    replacement.prev := item.prev;
    if replacement.next != null {
      replacement.next.prev := replacement;
    }
    if parent.child == item {
      if parent.child.prev == parent.child {
        replacement.prev := replacement;
      }
      parent.child := replacement;
    } else {
      if replacement.prev != null {
        replacement.prev.next := replacement;
      }
      if replacement.next == null {
        parent.child.prev := replacement;
      }
    }
    if replacement !in items {
      ReplacedIsList(parent, items, k, replacement);
    }
  }
}
