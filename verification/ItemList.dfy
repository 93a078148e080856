/**
  * The sibling list of src/core/cJSON.c: children are linked by `next` and `prev`, the parent points to
  * the first child, whose `prev` is the last one. Every operation is proved against the sequence of
  * children it stands for.
  */
module ItemList {

  class Item {
    var next: Item?
    var prev: Item?
    var child: Item?

    /** cJSON_New_Item: all fields are NULL. */
    constructor ()
      ensures next == null && prev == null && child == null
    {
      next, prev, child := null, null, null;
    }
  }

  predicate Distinct(xs: seq<Item>) {
    forall i, j | 0 <= i < j < |xs| :: xs[i] != xs[j]
  }

  /** The item after, or before, the i-th: the first one's predecessor is the last. */
  function NextIn(xs: seq<Item>, i: nat): Item?
    requires i < |xs|
  {
    if i + 1 < |xs| then xs[i + 1] else null
  }

  function PrevIn(xs: seq<Item>, i: nat): Item
    requires i < |xs|
  {
    if i > 0 then xs[i - 1] else xs[|xs| - 1]
  }

  ghost predicate Linked(xs: seq<Item>)
    reads xs
  {
    forall i | 0 <= i < |xs| :: xs[i].next == NextIn(xs, i) && xs[i].prev == PrevIn(xs, i)
  }

  /** The children of `parent` are `xs`, in this order. */
  ghost predicate IsList(parent: Item, xs: seq<Item>)
    reads parent, xs
  {
    && parent !in xs && Distinct(xs)
    && parent.child == (if xs == [] then null else xs[0])
    && Linked(xs)
  }

  twostate predicate Untouched(a: Item?, b: Item?, xs: seq<Item>)
    reads a, b, xs
  {
    (a != null ==> unchanged(a)) && (b != null ==> unchanged(b)) && unchanged(xs)
  }

  lemma DistinctAt(xs: seq<Item>, k: nat)
    requires Distinct(xs) && k < |xs|
    ensures forall i | 0 <= i < |xs| && i != k :: xs[i] != xs[k]
  {
  }

  lemma LinkedAt(xs: seq<Item>, k: nat)
    requires Linked(xs) && k < |xs|
    ensures xs[k].next == NextIn(xs, k) && xs[k].prev == PrevIn(xs, k)
  {
  }

  lemma PrevIsSet(parent: Item, xs: seq<Item>, k: nat)
    requires IsList(parent, xs) && k < |xs|
    ensures xs[k].prev != null
  {
    LinkedAt(xs, k);
  }

  /** The pointers determine the sequence. */
  lemma ListDetermined(parent: Item, xs: seq<Item>, ys: seq<Item>)
    requires IsList(parent, xs) && IsList(parent, ys)
    ensures xs == ys
  {
    hide IsList;
    SamePrefix(parent, xs, ys, |xs|);
    SamePrefix(parent, ys, xs, |ys|);
    assert xs[..|xs|] == xs && ys[..|ys|] == ys;
  }

  lemma {:induction false} SamePrefix(parent: Item, xs: seq<Item>, ys: seq<Item>, n: nat)
    requires IsList(parent, xs) && IsList(parent, ys) && n <= |xs|
    ensures n <= |ys| && xs[..n] == ys[..n]
    decreases n
  {
    hide Distinct;
    if n > 0 {
      SamePrefix(parent, xs, ys, n - 1);
      if n > 1 {
        assert xs[n - 2] == xs[..n - 1][n - 2] == ys[..n - 1][n - 2] == ys[n - 2];
        assert ys[n - 2].next == NextIn(ys, n - 2);
        assert xs[n - 2].next == NextIn(xs, n - 2);
      }
    }
  }

  /** get_array_item. */
  method GetArrayItem(list: Item?, index: nat, ghost xs: seq<Item>) returns (item: Item?)
    requires list != null ==> IsList(list, xs)
    ensures item == (if list != null && index < |xs| then xs[index] else null)
  {
    if list == null {
      return null;
    }
    var i := index;
    item := list.child;
    while item != null && i > 0
      invariant 0 <= i <= index
      invariant index - i < |xs| ==> item == xs[index - i]
      invariant item == null <==> index - i >= |xs|
    {
      i := i - 1;
      item := item.next;
    }
  }

  /** add_item_to_array. Behind others, a new item must be the last: its own `next` is left as it is. */
  method AddItemToArray(list: Item?, item: Item?, ghost xs: seq<Item>) returns (ok: bool)
    requires list != null ==> IsList(list, xs)
    requires item != null ==> item !in xs
    requires item != null && list != null && xs != [] ==> item.next == null
    modifies list, item, xs
    ensures ok == (item != null && list != null && list != item)
    ensures ok ==> IsList(list, xs + [item]) && item.child == old(item.child)
    ensures forall x | x in xs :: x.child == old(x.child)
    ensures !ok ==> Untouched(list, item, xs)
  {
    if item == null || list == null || list == item {
      return false;
    }
    var child := list.child;
    if child == null {
      list.child := item;
      item.prev := item;
      item.next := null;
      assert xs + [item] == [item];
    } else if child.prev != null {
      Append(child, item, xs);
    }
    return true;
  }

  /** The pointer part of add_item_to_array for a list that is not empty. */
  method Append(child: Item, item: Item, ghost xs: seq<Item>)
    requires xs != [] && child == xs[0] && Distinct(xs) && Linked(xs) && item !in xs && item.next == null
    modifies xs`next, xs`prev, item`prev
    ensures Linked(xs + [item]) && Distinct(xs + [item])
  {
    LinkedAt(xs, 0);
    DistinctAt(xs, 0);
    DistinctAt(xs, |xs| - 1);
    var last := child.prev;
    // suffix_object
    last.next := item;
    item.prev := last;
    child.prev := item;
  }

  /** The sequence with `x` put in at `k`. */
  function InsertAt(xs: seq<Item>, k: nat, x: Item): seq<Item>
    requires k <= |xs|
  {
    xs[..k] + [x] + xs[k..]
  }

  lemma InsertIndices(xs: seq<Item>, k: nat, x: Item)
    requires k <= |xs| && Distinct(xs) && x !in xs
    ensures var ys := InsertAt(xs, k, x);
      && |ys| == |xs| + 1 && ys[k] == x && Distinct(ys)
      && (forall i | 0 <= i < k :: ys[i] == xs[i])
      && (forall i | k < i < |ys| :: ys[i] == xs[i - 1])
      && (forall y :: y in ys <==> y == x || y in xs)
  {
  }

  /** Every item points forward to its successor, the one before the k-th to `x`. */
  ghost predicate NextsThrough(xs: seq<Item>, k: nat, x: Item)
    reads xs
  {
    forall i | 0 <= i < |xs| :: xs[i].next == (if i + 1 == k then x else NextIn(xs, i))
  }

  /** Every item points back to its predecessor, the k-th to `x`. */
  ghost predicate PrevsThrough(xs: seq<Item>, k: nat, x: Item)
    reads xs
  {
    forall i | 0 <= i < |xs| :: xs[i].prev == (if i == k then x else PrevIn(xs, i))
  }

  /** The links of the longer list, from the links of the shorter one and the four that were set. */
  lemma InsertLinked(xs: seq<Item>, k: nat, x: Item)
    requires k < |xs| && Distinct(xs) && x !in xs
    requires x.next == xs[k] && x.prev == PrevIn(xs, k)
    requires NextsThrough(xs, k, x) && PrevsThrough(xs, k, x)
    ensures Linked(InsertAt(xs, k, x))
  {
    var ys := InsertAt(xs, k, x);
    InsertIndices(xs, k, x);
    forall i | 0 <= i < |ys|
      ensures ys[i].next == NextIn(ys, i) && ys[i].prev == PrevIn(ys, i)
    {
      if i < k {
        assert xs[i].next == (if i + 1 == k then x else NextIn(xs, i));
        assert xs[i].prev == PrevIn(xs, i);
      } else if i > k {
        assert xs[i - 1].next == NextIn(xs, i - 1);
        assert i - 1 != k ==> xs[i - 1].prev == PrevIn(xs, i - 1);
      }
    }
  }

  function RemoveAt(xs: seq<Item>, k: nat): seq<Item>
    requires k < |xs|
  {
    xs[..k] + xs[k + 1..]
  }

  /** Putting an item in and taking it out again, at the same place, gives the sequence back. */
  lemma RemoveUndoesInsert(xs: seq<Item>, k: nat, x: Item)
    requires k <= |xs|
    ensures RemoveAt(InsertAt(xs, k, x), k) == xs
  {
  }

  lemma RemoveIndices(xs: seq<Item>, k: nat)
    requires k < |xs| && Distinct(xs)
    ensures var ys := RemoveAt(xs, k);
      && |ys| == |xs| - 1 && Distinct(ys) && xs[k] !in ys
      && (forall i | 0 <= i < k :: ys[i] == xs[i])
      && (forall i | k <= i < |ys| :: ys[i] == xs[i + 1])
      && (forall y :: y in ys ==> y in xs)
  {
  }

  /** The links of the shorter list, from the links of the longer one and the two that were set. */
  lemma RemoveLinked(xs: seq<Item>, k: nat)
    requires k < |xs| && Distinct(xs)
    requires NextsAround(xs, k, NextIn(xs, k)) && PrevsAround(xs, k, PrevIn(xs, k))
    requires k > 0 ==> xs[0].prev == (if k + 1 == |xs| then PrevIn(xs, k) else xs[|xs| - 1])
    ensures Linked(RemoveAt(xs, k))
  {
    var ys := RemoveAt(xs, k);
    RemoveIndices(xs, k);
    forall i | 0 <= i < |ys|
      ensures ys[i].next == NextIn(ys, i) && ys[i].prev == PrevIn(ys, i)
    {
      if i < k {
        assert xs[i].next == (if i + 1 == k then NextIn(xs, k) else NextIn(xs, i));
        assert i > 0 ==> xs[i].prev == xs[i - 1];
      } else {
        assert xs[i + 1].next == NextIn(xs, i + 1);
        assert xs[i + 1].prev == (if i == k then PrevIn(xs, k) else xs[i]);
      }
    }
  }

  lemma ReplaceDistinct(xs: seq<Item>, k: nat, x: Item)
    requires k < |xs| && Distinct(xs) && x !in xs
    ensures Distinct(xs[k := x]) && (forall y | y in xs[k := x] :: y == x || y in xs)
  {
  }

  ghost predicate NextsLinked(xs: seq<Item>)
    reads xs
  {
    forall i | 0 <= i < |xs| :: xs[i].next == NextIn(xs, i)
  }

  ghost predicate PrevsLinked(xs: seq<Item>)
    reads xs
  {
    forall i | 0 < i < |xs| :: xs[i].prev == xs[i - 1]
  }

  /** All items but the k-th point forward to their successors, the one before it to `x`. */
  ghost predicate NextsAround(xs: seq<Item>, k: nat, x: Item?)
    reads xs
  {
    forall i | 0 <= i < |xs| && i != k :: xs[i].next == (if i + 1 == k then x else NextIn(xs, i))
  }

  /** All items but the k-th point back to their predecessors, the one after it to `x`. */
  ghost predicate PrevsAround(xs: seq<Item>, k: nat, x: Item?)
    reads xs
  {
    forall i | 0 < i < |xs| && i != k :: xs[i].prev == (if i == k + 1 then x else xs[i - 1])
  }

  /** The links after item `k` gave its place to `x`. */
  lemma ReplaceLinked(xs: seq<Item>, k: nat, x: Item)
    requires k < |xs|
    requires x.next == NextIn(xs, k)
    requires x.prev == (if |xs| == 1 then x else PrevIn(xs, k))
    requires NextsAround(xs, k, x) && PrevsAround(xs, k, x)
    requires k > 0 ==> xs[0].prev == (if k + 1 == |xs| then x else xs[|xs| - 1])
    ensures Linked(xs[k := x])
  {
    var ys := xs[k := x];
    forall i | 0 <= i < |ys|
      ensures ys[i].next == NextIn(ys, i) && ys[i].prev == PrevIn(ys, i)
    {
      if i != k {
        assert xs[i].next == (if i + 1 == k then x else NextIn(xs, i));
        assert i > 0 ==> xs[i].prev == (if i == k + 1 then x else xs[i - 1]);
      }
    }
  }

  /** cJSON_InsertItemInArray: behind the end it appends. */
  method InsertItemInArray(list: Item?, which: int, newItem: Item?, ghost xs: seq<Item>) returns (ok: bool)
    requires list != null ==> IsList(list, xs)
    requires newItem != null ==> newItem !in xs && newItem != list
    requires newItem != null && list != null && xs != [] && which >= |xs| ==> newItem.next == null
    modifies list, newItem, xs
    ensures ok == (which >= 0 && newItem != null && list != null)
    ensures ok ==> IsList(list, InsertAt(xs, if which < |xs| then which else |xs|, newItem))
    ensures !ok ==> Untouched(list, newItem, xs)
  {
    hide IsList;
    if which < 0 || newItem == null {
      return false;
    }
    var after := GetArrayItem(list, which, xs);
    if after == null {
      ok := AddItemToArray(list, newItem, xs);
      assert list != null ==> InsertAt(xs, |xs|, newItem) == xs + [newItem];
      return;
    }
    PrevIsSet(list, xs, which);
    if after != list.child && after.prev == null {
      return false;
    }
    LinkBefore(list, after, newItem, xs, which);
    return true;
  }

  /** The pointer part of cJSON_InsertItemInArray. */
  method LinkBefore(list: Item, after: Item, newItem: Item, ghost xs: seq<Item>, ghost k: nat)
    requires IsList(list, xs) && k < |xs| && after == xs[k]
    requires newItem !in xs && newItem != list
    modifies list, newItem, xs
    ensures IsList(list, InsertAt(xs, k, newItem))
  {
    hide Distinct, Linked, NextsThrough, PrevsThrough, NextsLinked;
    PutBefore(after, newItem, xs, k);
    DistinctAt(xs, k);
    if after == list.child {
      list.child := newItem;
      NothingBefore(xs, newItem);
    } else {
      PointForward(newItem, xs, k);
    }
    InsertIndices(xs, k, newItem);
    InsertLinked(xs, k, newItem);
  }

  /** The new item takes its place in front of the item that will follow it. */
  method PutBefore(after: Item, newItem: Item, ghost xs: seq<Item>, ghost k: nat)
    requires Distinct(xs) && Linked(xs) && k < |xs| && after == xs[k] && newItem !in xs
    modifies newItem`next, newItem`prev, after`prev
    ensures newItem.next == xs[k] && newItem.prev == PrevIn(xs, k)
    ensures NextsLinked(xs) && PrevsThrough(xs, k, newItem)
  {
    DistinctAt(xs, k);
    LinkedAt(xs, k);
    newItem.next := after;
    newItem.prev := after.prev;
    after.prev := newItem;
  }

  lemma NothingBefore(xs: seq<Item>, x: Item)
    requires NextsLinked(xs)
    ensures NextsThrough(xs, 0, x)
  {
  }

  method PointForward(newItem: Item, ghost xs: seq<Item>, ghost k: nat)
    requires Distinct(xs) && 0 < k < |xs| && newItem.prev == xs[k - 1] && newItem !in xs && NextsLinked(xs)
    modifies newItem.prev`next
    ensures NextsThrough(xs, k, newItem)
  {
    DistinctAt(xs, k - 1);
    newItem.prev.next := newItem;
  }

  /**
    * cJSON_DetachItemViaPointer. The item is a child of the parent, at `k`, or it is linked nowhere.
    */
  method DetachItemViaPointer(parent: Item?, item: Item?, ghost xs: seq<Item>, ghost k: nat)
      returns (detached: Item?)
    requires parent != null ==> IsList(parent, xs)
    requires item != null ==> (k < |xs| && item == xs[k]) || (item !in xs && item.prev == null)
    modifies parent, item, xs
    ensures detached == (if parent != null && item != null && item in xs then item else null)
    ensures detached != null ==> k < |xs| && IsList(parent, RemoveAt(xs, k)) && item.next == null && item.prev == null
    ensures detached == null ==> Untouched(parent, item, xs)
  {
    if parent == null || item == null || (item != parent.child && item.prev == null) {
      return null;
    }
    Unlink(parent, item, xs, k);
    return item;
  }

  /** The pointer part of cJSON_DetachItemViaPointer. */
  method Unlink(parent: Item, item: Item, ghost xs: seq<Item>, ghost k: nat)
    requires IsList(parent, xs) && k < |xs| && item == xs[k]
    modifies parent, item, xs
    ensures IsList(parent, RemoveAt(xs, k))
    ensures item.next == null && item.prev == null
  {
    hide Distinct, Linked, NextsAround, PrevsAround;
    DistinctAt(xs, k);
    Bypass(parent, item, xs, k);
    if item == parent.child {
      parent.child := item.next;
    } else if item.next == null {
      CloseRing(parent.child, item.prev, xs, k);
    }
    DropLinks(item, xs, k, NextIn(xs, k), PrevIn(xs, k));
    RemoveIndices(xs, k);
    RemoveLinked(xs, k);
  }

  /** The neighbours of the item point past it. */
  method Bypass(parent: Item, item: Item, ghost xs: seq<Item>, ghost k: nat)
    requires k < |xs| && item == xs[k] && Distinct(xs) && Linked(xs) && parent !in xs && parent.child == xs[0]
    modifies xs`next, xs`prev
    ensures NextsAround(xs, k, NextIn(xs, k)) && PrevsAround(xs, k, PrevIn(xs, k))
    ensures item.next == NextIn(xs, k)
    ensures k > 0 ==> item.prev == xs[k - 1] && xs[0].prev == xs[|xs| - 1]
  {
    hide Distinct;
    LinkedAt(xs, k);
    LinkedAt(xs, 0);
    DistinctAt(xs, k);
    if k + 1 < |xs| {
      DistinctAt(xs, k + 1);
    }
    if k > 0 {
      DistinctAt(xs, k - 1);
    }
    if item != parent.child {
      item.prev.next := item.next;
    }
    if item.next != null {
      item.next.prev := item.prev;
    }
  }

  /** The head's `prev` is the new last item. */
  method CloseRing(child: Item, last: Item?, ghost xs: seq<Item>, ghost k: nat)
    requires 0 < k < |xs| && child == xs[0] && Distinct(xs)
    requires NextsAround(xs, k, NextIn(xs, k)) && PrevsAround(xs, k, PrevIn(xs, k))
    modifies child`prev
    ensures child.prev == last
    ensures NextsAround(xs, k, NextIn(xs, k)) && PrevsAround(xs, k, PrevIn(xs, k))
  {
    hide Distinct;
    DistinctAt(xs, 0);
    child.prev := last;
  }

  /** cJSON_ReplaceItemViaPointer, without the deletion of the replaced item. */
  method ReplaceItemViaPointer(parent: Item?, item: Item?, replacement: Item?, ghost xs: seq<Item>, ghost k: nat)
      returns (ok: bool)
    requires parent != null ==> IsList(parent, xs)
    requires item != null ==> k < |xs| && item == xs[k]
    requires replacement != null && replacement != item ==> replacement !in xs && replacement != parent
    modifies parent, item, replacement, xs
    ensures ok == (parent != null && replacement != null && item != null)
    ensures ok ==> IsList(parent, xs[k := replacement])
    ensures ok && replacement != item ==> item.next == null && item.prev == null
    ensures !ok ==> Untouched(parent, replacement, xs)
  {
    hide Distinct, Linked;
    if parent == null || parent.child == null || replacement == null || item == null {
      return false;
    }
    if replacement == item {
      assert xs[k := replacement] == xs;
      return true;
    }
    Relink(parent, item, replacement, xs, k);
    return true;
  }

  lemma LinkedEverywhere(xs: seq<Item>)
    requires Linked(xs)
    ensures NextsLinked(xs) && PrevsLinked(xs) && (xs != [] ==> xs[0].prev == xs[|xs| - 1])
  {
  }

  /** The replacement takes over the links of the item, and the item after it points back. */
  method TakeLinks(item: Item, replacement: Item, ghost xs: seq<Item>, ghost k: nat)
    requires k < |xs| && item == xs[k] && Distinct(xs) && Linked(xs) && replacement !in xs
    modifies replacement`next, replacement`prev, xs`prev
    ensures replacement.next == NextIn(xs, k) && replacement.prev == PrevIn(xs, k)
    ensures NextsLinked(xs) && PrevsAround(xs, k, replacement)
    ensures xs[0].prev == xs[|xs| - 1]
  {
    hide Distinct, Linked, NextsLinked, PrevsAround;
    LinkedAt(xs, k);
    LinkedEverywhere(xs);
    if k + 1 < |xs| {
      DistinctAt(xs, k + 1);
    }
    replacement.next := item.next;
    replacement.prev := item.prev;
    PointBack(replacement, xs, k);
  }

  /** The item behind the replacement, if there is one. */
  method PointBack(replacement: Item, ghost xs: seq<Item>, ghost k: nat)
    requires k < |xs| && replacement !in xs && replacement.next == NextIn(xs, k)
    requires forall i | 0 <= i < |xs| && i != k + 1 && k + 1 < |xs| :: xs[i] != xs[k + 1]
    requires NextsLinked(xs) && PrevsLinked(xs)
    modifies xs`prev
    ensures NextsLinked(xs) && PrevsAround(xs, k, replacement)
    ensures xs[0].prev == old(xs[0].prev)
  {
    if replacement.next != null {
      replacement.next.prev := replacement;
    }
  }

  /** The pointer part of cJSON_ReplaceItemViaPointer. */
  method Relink(parent: Item, item: Item, replacement: Item, ghost xs: seq<Item>, ghost k: nat)
    requires IsList(parent, xs) && k < |xs| && item == xs[k]
    requires replacement !in xs && replacement != parent
    modifies parent, item, replacement, xs
    ensures IsList(parent, xs[k := replacement])
    ensures item.next == null && item.prev == null
  {
    hide Distinct, Linked, NextsAround, PrevsAround, NextsLinked;
    TakeLinks(item, replacement, xs, k);
    Rehang(parent, item, replacement, xs, k);
    DropLinks(item, xs, k, replacement, replacement);
    ReplaceLinked(xs, k, replacement);
    ReplaceDistinct(xs, k, replacement);
  }

  method DropLinks(item: Item, ghost xs: seq<Item>, ghost k: nat, ghost next: Item?, ghost prev: Item?)
    requires k < |xs| && item == xs[k] && Distinct(xs)
    requires NextsAround(xs, k, next) && PrevsAround(xs, k, prev)
    modifies item`next, item`prev
    ensures item.next == null && item.prev == null
    ensures NextsAround(xs, k, next) && PrevsAround(xs, k, prev)
    ensures k > 0 ==> xs[0].prev == old(xs[0].prev)
  {
    DistinctAt(xs, k);
    item.next := null;
    item.prev := null;
  }

  /** The parent, or the item before, gets the replacement for a child; the last child is the head's `prev`. */
  method Rehang(parent: Item, item: Item, replacement: Item, ghost xs: seq<Item>, ghost k: nat)
    requires k < |xs| && item == xs[k] && Distinct(xs) && parent.child == xs[0]
    requires parent !in xs && replacement !in xs && replacement != parent
    requires replacement.next == NextIn(xs, k) && replacement.prev == PrevIn(xs, k)
    requires PrevsAround(xs, k, replacement)
    requires NextsLinked(xs)
    requires xs[0].prev == xs[|xs| - 1]
    modifies parent`child, replacement`prev, xs`next, xs`prev
    ensures parent.child == xs[k := replacement][0]
    ensures replacement.prev == (if |xs| == 1 then replacement else PrevIn(xs, k))
    ensures NextsAround(xs, k, replacement) && PrevsAround(xs, k, replacement)
    ensures k > 0 ==> xs[0].prev == (if k + 1 == |xs| then replacement else xs[|xs| - 1])
  {
    if parent.child == item {
      if parent.child.prev == parent.child {
        replacement.prev := replacement;
      }
      parent.child := replacement;
    } else {
      if replacement.prev != null {
        replacement.prev.next := replacement;
      }
      if replacement.next == null {
        parent.child.prev := replacement;
      }
    }
  }

  /** The first `n` items hang together; the others are linked nowhere. */
  ghost predicate Chained(nodes: seq<Item>, n: nat)
    requires n <= |nodes|
    reads nodes
  {
    forall k | 0 <= k < |nodes| :: HungAt(nodes, n, k)
  }

  ghost predicate HungAt(nodes: seq<Item>, n: nat, k: nat)
    requires n <= |nodes| && k < |nodes|
    reads nodes
  {
    && nodes[k].next == (if k + 1 < n then nodes[k + 1] else null)
    && nodes[k].prev == (if 0 < k < n then nodes[k - 1] else null)
  }

  lemma FirstChained(nodes: seq<Item>)
    requires nodes != [] && Chained(nodes, 0)
    ensures Chained(nodes, 1)
  {
    forall k | 0 <= k < |nodes| ensures HungAt(nodes, 1, k) {
      assert HungAt(nodes, 0, k);
    }
  }

  /** A new item is hung behind the current one. */
  method Hang(current: Item, item: Item, ghost nodes: seq<Item>, ghost n: nat)
    requires Distinct(nodes) && 0 < n < |nodes| && Chained(nodes, n)
    requires current == nodes[n - 1] && item == nodes[n]
    modifies current`next, item`prev
    ensures Chained(nodes, n + 1)
  {
    DistinctAt(nodes, n);
    DistinctAt(nodes, n - 1);
    current.next := item;
    item.prev := current;
    ghost var m := n + 1;
    forall k | 0 <= k < |nodes| ensures HungAt(nodes, m, k) {
      assert old(HungAt(nodes, n, k));
    }
  }

  /** The head's `prev` is the last item. */
  method CloseChain(head: Item, current: Item, ghost nodes: seq<Item>)
    requires Distinct(nodes) && nodes != [] && Chained(nodes, |nodes|)
    requires head == nodes[0] && current == nodes[|nodes| - 1]
    modifies head`prev
    ensures Linked(nodes)
  {
    DistinctAt(nodes, 0);
    head.prev := current;
    forall k | 0 <= k < |nodes|
      ensures nodes[k].next == NextIn(nodes, k) && nodes[k].prev == PrevIn(nodes, k)
    {
      assert old(HungAt(nodes, |nodes|, k));
    }
  }

  /**
    * The linking done by parse_array and parse_object: each new item is hung behind the last one, and
    * the head's `prev` is set when the closing bracket is reached.
    */
  method LinkParsed(parent: Item, nodes: seq<Item>)
    requires parent !in nodes && Distinct(nodes)
    requires forall x | x in nodes :: x.next == null && x.prev == null
    modifies parent, nodes
    ensures IsList(parent, nodes)
  {
    var head: Item?, current: Item? := null, null;
    var i := 0;
    while i < |nodes|
      invariant 0 <= i <= |nodes| && Chained(nodes, i)
      invariant i == 0 ==> head == null
      invariant i > 0 ==> head == nodes[0] && current == nodes[i - 1]
    {
      if head == null {
        head := nodes[i];
        FirstChained(nodes);
      } else {
        Hang(current, nodes[i], nodes, i);
      }
      current := nodes[i];
      i := i + 1;
    }
    if head != null {
      CloseChain(head, current, nodes);
    }
    parent.child := head;
  }
}
