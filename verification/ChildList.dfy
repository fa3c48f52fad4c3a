/** The child list of an array or object: nodes linked by `next` and `prev`, where the
    `prev` of the first node, if set, is a shortcut to the last. */
module ChildList {

  class Item {
    var next: Item?
    var prev: Item?
    var child: Item?

    /** `cJSON_New_Item`: all zero. */
    constructor ()
      ensures next == prev == child == null
    {
      next, prev, child := null, null, null;
    }
  }

  /** The children of `parent` are `kids`, in this order. */
  ghost predicate List(parent: Item, kids: seq<Item>)
    reads parent, kids
  {
    && parent !in kids
    && (forall i, j :: 0 <= i < j < |kids| ==> kids[i] != kids[j])
    && parent.child == (if kids == [] then null else kids[0])
    && (forall i :: 0 <= i < |kids| - 1 ==> kids[i].next == kids[i + 1])
    && (kids != [] ==> kids[|kids| - 1].next == null)
    && (forall i :: 1 <= i < |kids| ==> kids[i].prev == kids[i - 1])
  }

  /** The shortcut of the first node is missing or right. */
  ghost predicate Shortcut(kids: seq<Item>)
    reads kids
  {
    kids != [] ==> kids[0].prev == null || kids[0].prev == kids[|kids| - 1]
  }

  /** What the shortcut points at, if anything. */
  ghost function Hint(kids: seq<Item>): (s: set<Item>)
    reads kids
  {
    if kids != [] && kids[0].prev != null then {kids[0].prev} else {}
  }

  /** The nodes whose sibling links an operation may write. */
  ghost function Touched(item: Item?, kids: seq<Item>): set<Item?>
    reads kids
  {
    {item} + (set k | k in kids) + Hint(kids)
  }

  /** Nothing is written when an argument is missing. */
  ghost function Both(parent: Item?, item: Item?, touched: set<Item?>): set<Item?> {
    if parent != null && item != null then touched else {}
  }

  /** What the links of the `k`-th child are. */
  lemma Neighbours(parent: Item, kids: seq<Item>, k: nat)
    requires List(parent, kids) && k < |kids|
    ensures kids[k] == parent.child <==> k == 0
    ensures kids[k].next == if k + 1 < |kids| then kids[k + 1] else null
    ensures k > 0 ==> kids[k].prev == kids[k - 1]
    ensures Shortcut(kids) && k == 0 ==> kids[k].prev == null || kids[k].prev == kids[|kids| - 1]
  {
  }

  /** `get_array_item`. */
  method GetArrayItem(parent: Item?, index: nat, ghost kids: seq<Item>) returns (item: Item?)
    requires parent != null ==> List(parent, kids)
    ensures item == (if parent != null && index < |kids| then kids[index] else null)
  {
    if parent == null {
      return null;
    }
    item := parent.child;
    var left := index;
    ghost var k := 0;
    while item != null && left > 0
      invariant left >= 0 && k + left == index && k <= |kids|
      invariant item == (if k < |kids| then kids[k] else null)
    {
      left := left - 1;
      item := item.next;
      k := k + 1;
    }
  }

  /** `cJSON_GetArraySize`, before the cast to int. */
  method GetArraySize(parent: Item?, ghost kids: seq<Item>) returns (size: nat)
    requires parent != null ==> List(parent, kids)
    ensures size == (if parent != null then |kids| else 0)
  {
    size := 0;
    if parent != null {
      var child := parent.child;
      while child != null
        invariant size <= |kids| && child == (if size < |kids| then kids[size] else null)
        decreases |kids| - size
      {
        size := size + 1;
        child := child.next;
      }
    }
  }

  /** `add_item_to_array`: it appends exactly when the shortcut is not stale and the item ends
      a chain. Where the shortcut points out of the list, the item is lost. */
  method AddItemToArray(parent: Item?, item: Item?, ghost kids: seq<Item>) returns (ok: bool)
    requires parent != null && item != null ==> List(parent, kids) && item != parent && item !in kids
    modifies Both(parent, item, {parent})`child, Both(parent, item, Touched(item, kids))`next, Both(parent, item, Touched(item, kids))`prev
    ensures ok <==> parent != null && item != null
    ensures !ok && parent != null ==> unchanged(parent)
    ensures !ok && item != null ==> unchanged(item)
    ensures ok ==>
      (List(parent, kids + [item]) <==> old(Shortcut(kids)) && (kids == [] || old(item.next) == null))
    ensures ok && old(Shortcut(kids)) ==> Shortcut(kids + [item])
    ensures ok ==> (kids + [item])[0].prev == item
    ensures ok && old(Hint(kids)) !! (set k | k in kids) && kids != [] && old(kids[0].prev) != null ==>
      List(parent, kids)
  {
    if item == null || parent == null {
      return false;
    }
    var child := parent.child;
    if child == null {
      parent.child := item;
      item.prev := item;
      item.next := null;
    } else {
      if child.prev != null {
        SuffixObject(child.prev, item);
        parent.child.prev := item;
      } else {
        ghost var k := 0;
        while child.next != null
          invariant 0 <= k < |kids| && child == kids[k]
          decreases |kids| - k
        {
          child := child.next;
          k := k + 1;
        }
        Neighbours(parent, kids, k);
        SuffixObject(child, item);
        parent.child.prev := item;
      }
    }
    ok := true;
    ghost var grown, n := kids + [item], |kids|;
    assert grown[n] == item && forall i :: 0 <= i < n ==> grown[i] == kids[i];
    if !old(Shortcut(kids)) {
      assert grown[n - 1].next != grown[n];
    } else if kids == [] || old(item.next) == null {
      assert n > 0 ==> kids[n - 1].next == item;
      forall i | 0 <= i < n ensures grown[i].next == grown[i + 1] {
        if i < n - 1 {
          assert kids[i] != kids[n - 1] && old(kids[i].next) == kids[i + 1];
        }
      }
      assert List(parent, grown);
    } else {
      assert grown[n].next != null;
    }
  }

  /** `suffix_object`. */
  method SuffixObject(prev: Item, item: Item)
    modifies prev`next, item`prev
    ensures prev.next == item && item.prev == prev
  {
    prev.next := item;
    item.prev := prev;
  }

  /** How `parse_array`, `parse_object` and `cJSON_Duplicate` link the items they make, one
      after the other: the first has no shortcut. */
  method Attach(parent: Item, items: seq<Item>)
    requires parent !in items && forall i, j :: 0 <= i < j < |items| ==> items[i] != items[j]
    requires parent.child == null
    requires forall i :: 0 <= i < |items| ==> items[i].next == items[i].prev == null
    modifies parent`child, items`next, items`prev
    ensures List(parent, items) && Shortcut(items) && (items != [] ==> items[0].prev == null)
  {
    var head: Item?, current: Item? := null, null;
    var i := 0;
    while i < |items|
      invariant 0 <= i <= |items|
      invariant i == 0 ==> head == null
      invariant i > 0 ==> head == items[0] && current == items[i - 1] && items[0].prev == null
      invariant forall k :: 0 <= k < i - 1 ==> items[k].next == items[k + 1]
      invariant forall k :: 1 <= k < i ==> items[k].prev == items[k - 1]
      invariant i > 0 ==> items[i - 1].next == null
      invariant forall k :: i <= k < |items| ==> items[k].next == items[k].prev == null
    {
      var item := items[i];
      if head == null {
        current, head := item, item;
      } else {
        current.next := item;
        item.prev := current;
        current := item;
      }
      i := i + 1;
    }
    parent.child := head;
  }

  /** `cJSON_DetachItemViaPointer` on the `k`-th child: the shortcut goes stale exactly when the
      last of several children is detached and the shortcut was set. */
  method DetachItem(parent: Item?, item: Item?, ghost kids: seq<Item>, ghost k: nat) returns (detached: Item?)
    requires parent != null && item != null ==> List(parent, kids) && k < |kids| && kids[k] == item
    modifies Both(parent, item, {parent})`child, Both(parent, item, Touched(item, kids))`next, Both(parent, item, Touched(item, kids))`prev
    ensures parent == null || item == null ==> detached == null
    ensures parent != null && item != null ==>
      detached == item && item.next == item.prev == null && List(parent, kids[..k] + kids[k + 1..])
    ensures parent != null && item != null && old(Shortcut(kids)) ==>
      (Shortcut(kids[..k] + kids[k + 1..]) <==> !(0 < k == |kids| - 1 && old(kids[0].prev) != null))
    ensures parent != null && item != null && |kids| > 1 ==>
      kids[if k == 0 then 1 else 0].prev == old(kids[0].prev)
  {
    if parent == null || item == null {
      return null;
    }
    Neighbours(parent, kids, k);
    if item != parent.child {
      item.prev.next := item.next;
    }
    if item.next != null {
      item.next.prev := item.prev;
    }
    if item == parent.child {
      parent.child := item.next;
    }
    item.prev := null;
    item.next := null;
    detached := item;
    ghost var rest := kids[..k] + kids[k + 1..];
    assert forall i :: 0 <= i < |rest| ==> rest[i] == kids[if i < k then i else i + 1];
  }

  /** `cJSON_InsertItemInArray`: before an existing child it inserts whatever the shortcut is;
      past the end it appends, under the conditions of that. */
  method InsertItem(parent: Item?, which: int, newitem: Item, ghost kids: seq<Item>)
    requires parent != null ==> List(parent, kids) && newitem != parent && newitem !in kids
    modifies Both(parent, newitem, {parent})`child
    modifies Both(parent, newitem, Touched(newitem, kids))`next, Both(parent, newitem, Touched(newitem, kids))`prev
    ensures parent != null && 0 <= which < |kids| ==>
      && List(parent, kids[..which] + [newitem] + kids[which..])
      && (Shortcut(kids[..which] + [newitem] + kids[which..]) <==> old(Shortcut(kids)))
    ensures parent != null && which >= |kids| ==>
      (List(parent, kids + [newitem]) <==> old(Shortcut(kids)) && (kids == [] || old(newitem.next) == null))
    ensures parent != null && which >= |kids| && old(Shortcut(kids)) ==> Shortcut(kids + [newitem])
    ensures parent != null && which < 0 ==> List(parent, kids) && unchanged(parent, newitem, kids)
  {
    if which < 0 {
      return;
    }
    var after := GetArrayItem(parent, which, kids);
    if after == null {
      var ok := AddItemToArray(parent, newitem, kids);
      return;
    }
    InsertBefore(parent, which, after, newitem, kids);
  }

  /** The part of `cJSON_InsertItemInArray` that links the new item before the `k`-th child. */
  method InsertBefore(parent: Item, ghost k: nat, after: Item, newitem: Item, ghost kids: seq<Item>)
    requires List(parent, kids) && newitem != parent && newitem !in kids
    requires k < |kids| && after == kids[k]
    modifies parent`child, Touched(newitem, kids)`next, Touched(newitem, kids)`prev
    ensures List(parent, kids[..k] + [newitem] + kids[k..])
    ensures Shortcut(kids[..k] + [newitem] + kids[k..]) <==> old(Shortcut(kids))
  {
    hide Shortcut;
    ghost var p := kids[0].prev;
    ShortcutIs(kids, p);
    Neighbours(parent, kids, k);
    newitem.next := after;
    newitem.prev := after.prev;
    after.prev := newitem;
    if after == parent.child {
      parent.child := newitem;
    } else {
      newitem.prev.next := newitem;
    }
    Relinked(parent, kids, k, newitem);
    ShortcutMoves(kids, k, newitem, p);
  }

  /** The links of a list with `x` put in before the `k`-th child. */
  lemma Relinked(parent: Item, kids: seq<Item>, k: nat, x: Item)
    requires k < |kids| && parent !in kids && x !in kids && x != parent
    requires forall i, j :: 0 <= i < j < |kids| ==> kids[i] != kids[j]
    requires parent.child == if k == 0 then x else kids[0]
    requires forall i :: 0 <= i < |kids| - 1 && i + 1 != k ==> kids[i].next == kids[i + 1]
    requires forall i :: 1 <= i < |kids| && i != k ==> kids[i].prev == kids[i - 1]
    requires kids[|kids| - 1].next == null && x.next == kids[k] && kids[k].prev == x
    requires k > 0 ==> kids[k - 1].next == x && x.prev == kids[k - 1]
    ensures List(parent, kids[..k] + [x] + kids[k..])
  {
    InsertedAt(kids, k, x);
    var grown := kids[..k] + [x] + kids[k..];
    forall i | 0 <= i < |grown| - 1
      ensures grown[i].next == grown[i + 1] && grown[i + 1].prev == grown[i]
    {
      if i > k {
        assert kids[i - 1].next == kids[i];
      }
    }
  }

  lemma ShortcutIs(kids: seq<Item>, p: Item?)
    requires kids != [] && kids[0].prev == p
    ensures Shortcut(kids) <==> p == null || p == kids[|kids| - 1]
  {
  }

  /** The first node of the longer list has the shortcut `p` of the old one. */
  lemma ShortcutMoves(kids: seq<Item>, k: nat, x: Item, p: Item?)
    requires k < |kids| && (if k == 0 then x else kids[0]).prev == p
    ensures Shortcut(kids[..k] + [x] + kids[k..]) <==> p == null || p == kids[|kids| - 1]
  {
    InsertedAt(kids, k, x);
    ShortcutIs(kids[..k] + [x] + kids[k..], p);
  }

  lemma InsertedAt(kids: seq<Item>, k: nat, x: Item)
    requires k < |kids|
    ensures var grown := kids[..k] + [x] + kids[k..];
      |grown| == |kids| + 1 && grown[k] == x &&
      forall i :: 0 <= i < |grown| ==> grown[i] == if i < k then kids[i] else if i == k then x else kids[i - 1]
  {
  }

  /** `cJSON_ReplaceItemViaPointer` on the `k`-th child, up to the deletion of the old item: the
      shortcut goes stale exactly when the last child is replaced and the shortcut was set. */
  method ReplaceItem(parent: Item?, item: Item?, replacement: Item?, ghost kids: seq<Item>, ghost k: nat)
    returns (ok: bool)
    requires parent != null && item != null ==> List(parent, kids) && k < |kids| && kids[k] == item
    requires parent != null && item != null && replacement != null && replacement != item ==>
      replacement != parent && replacement !in kids
    modifies Both(parent, item, {parent})`child
    modifies Both(parent, item, Touched(replacement, kids))`next, Both(parent, item, Touched(replacement, kids))`prev
    ensures ok <==> parent != null && item != null && replacement != null
    ensures ok ==> List(parent, kids[k := replacement])
    ensures ok && replacement == item ==> old(Shortcut(kids)) == Shortcut(kids)
    ensures ok && replacement != item ==> item.next == item.prev == null
    ensures ok && replacement != item && old(Shortcut(kids)) ==>
      (Shortcut(kids[k := replacement]) <==> !(k == |kids| - 1 && old(kids[0].prev) != null))
    ensures ok && replacement != item ==> kids[k := replacement][0].prev == old(kids[0].prev)
  {
    if parent == null || replacement == null || item == null {
      return false;
    }
    if replacement == item {
      assert kids[k := replacement] == kids;
      return true;
    }
    Neighbours(parent, kids, k);
    replacement.next := item.next;
    replacement.prev := item.prev;
    if replacement.next != null {
      replacement.next.prev := replacement;
    }
    if parent.child == item {
      parent.child := replacement;
    } else {
      if replacement.prev != null {
        replacement.prev.next := replacement;
      }
    }
    item.next := null;
    item.prev := null;
    ok := true;
  }

  // ----- lists that lose an item

  lemma NoChildren(parent: Item)
    requires parent.child == null
    ensures List(parent, []) && Shortcut([]) && Hint([]) == {}
  {
  }

  lemma Points(kids: seq<Item>)
    requires kids != [] && kids[0].prev != null
    ensures Hint(kids) == {kids[0].prev}
  {
  }

  /** The first node points at a node that is not the last: the shortcut is stale. */
  lemma Stale(kids: seq<Item>, last: Item)
    requires kids != [] && kids[0].prev == last && last !in kids
    ensures !Shortcut(kids) && Hint(kids) == {last}
  {
  }

  /** A parent to which two items were appended. */
  method TwoItems() returns (parent: Item, a: Item, b: Item)
    ensures fresh(parent) && fresh(a) && fresh(b) && parent != a && parent != b && a != b
    ensures List(parent, [a, b]) && Shortcut([a, b]) && a.prev == b
  {
    hide List, Shortcut, Hint;
    parent := new Item();
    a := new Item();
    b := new Item();
    NoChildren(parent);
    var ok := AddItemToArray(parent, a, []);
    assert [] + [a] == [a];
    Points([a]);
    ok := AddItemToArray(parent, b, [a]);
    assert [a] + [b] == [a, b];
  }

  /** Append `a` and `b`, detach `b`, append `c`: the list is left without `c`. */
  method DetachThenAppend() returns (parent: Item, a: Item, c: Item)
    ensures fresh(parent) && fresh(a) && fresh(c) && c != a
    ensures List(parent, [a]) && !List(parent, [a, c])
  {
    hide List, Shortcut, Hint;
    var b;
    parent, a, b := TwoItems();
    c := new Item();
    Points([a, b]);
    var detached := DetachItem(parent, b, [a, b], 1);
    assert [a, b][..1] + [a, b][2..] == [a];
    Stale([a], b);
    var ok := AddItemToArray(parent, c, [a]);
    assert [a] + [c] == [a, c];
  }

  /** Append `a` and `b`, replace `b` by `c`, append `d`: the list is left without `d`. */
  method ReplaceThenAppend() returns (parent: Item, a: Item, c: Item, d: Item)
    ensures fresh(parent) && fresh(a) && fresh(c) && fresh(d) && d != a && d != c
    ensures List(parent, [a, c]) && !List(parent, [a, c, d])
  {
    hide List, Shortcut, Hint;
    var b;
    parent, a, b := TwoItems();
    c := new Item();
    d := new Item();
    Points([a, b]);
    var ok := ReplaceItem(parent, b, c, [a, b], 1);
    assert [a, b][1 := c] == [a, c];
    Stale([a, c], b);
    ok := AddItemToArray(parent, d, [a, c]);
    assert [a, c] + [d] == [a, c, d];
  }
}
