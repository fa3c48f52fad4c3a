/** The intrusive queue macros of the KCP header: a ring of nodes through a head that
    carries no element, relinked in place. */
module RingList {

  class QueueHead {
    var next: QueueHead?
    var prev: QueueHead?
  }

  /** From `head` the ring leads through `nodes` in order and back; `prev` runs the other way. */
  ghost predicate Ring(head: QueueHead, nodes: seq<QueueHead>)
    reads head, nodes
  {
    && head !in nodes
    && (forall i, j :: 0 <= i < j < |nodes| ==> nodes[i] != nodes[j])
    && head.next == (if |nodes| == 0 then head else nodes[0])
    && head.prev == (if |nodes| == 0 then head else nodes[|nodes| - 1])
    && (forall i :: 0 <= i < |nodes| - 1 ==> nodes[i].next == nodes[i + 1])
    && (|nodes| > 0 ==> nodes[|nodes| - 1].next == head)
    && (forall i :: 1 <= i < |nodes| ==> nodes[i].prev == nodes[i - 1])
    && (|nodes| > 0 ==> nodes[0].prev == head)
  }

  /** The links around the place `i` of the ring. */
  lemma Links(head: QueueHead, nodes: seq<QueueHead>, i: nat)
    requires Ring(head, nodes) && i <= |nodes|
    ensures var before := if i == 0 then head else nodes[i - 1];
      var at := if i == |nodes| then head else nodes[i];
      before.next == at && at.prev == before
    ensures i < |nodes| ==> nodes[i] in nodes && nodes[i] != head
  {
  }

  /** The ring is determined by its head: no two sequences fit it. */
  lemma RingDetermined(head: QueueHead, xs: seq<QueueHead>, ys: seq<QueueHead>)
    requires Ring(head, xs) && Ring(head, ys)
    ensures xs == ys
  {
    var i := 0;
    while i < |xs| && i < |ys|
      invariant 0 <= i <= |xs| && i <= |ys| && xs[..i] == ys[..i]
    {
      SamePredecessor(head, xs, ys, i);
      i := i + 1;
    }
    SamePredecessor(head, xs, ys, i);
  }

  lemma SamePredecessor(head: QueueHead, xs: seq<QueueHead>, ys: seq<QueueHead>, i: nat)
    requires Ring(head, xs) && Ring(head, ys) && i <= |xs| && i <= |ys| && xs[..i] == ys[..i]
    ensures (if i == |xs| then head else xs[i]) == (if i == |ys| then head else ys[i])
    ensures i == |xs| <==> i == |ys|
  {
    Links(head, xs, i);
    Links(head, ys, i);
    if i > 0 {
      assert xs[i - 1] == xs[..i][i - 1] == ys[..i][i - 1] == ys[i - 1];
    }
  }

  /** `IQUEUE_INIT`. */
  method Init(ptr: QueueHead)
    modifies ptr
    ensures Ring(ptr, [])
  {
    ptr.next := ptr;
    ptr.prev := ptr;
  }

  /** `IQUEUE_IS_EMPTY`. */
  method IsEmpty(head: QueueHead, ghost nodes: seq<QueueHead>) returns (empty: bool)
    requires Ring(head, nodes)
    ensures empty <==> nodes == []
  {
    empty := head == head.next;
  }

  /** `IQUEUE_ADD`. */
  method Add(node: QueueHead, head: QueueHead, ghost nodes: seq<QueueHead>)
    requires Ring(head, nodes) && node != head && node !in nodes
    modifies node, head, nodes
    ensures Ring(head, [node] + nodes)
  {
    node.prev := head;
    node.next := head.next;
    head.next.prev := node;
    head.next := node;
    assert ([node] + nodes)[0] == node && ([node] + nodes)[1..] == nodes;
  }

  /** `IQUEUE_ADD_TAIL`. */
  method AddTail(node: QueueHead, head: QueueHead, ghost nodes: seq<QueueHead>)
    requires Ring(head, nodes) && node != head && node !in nodes
    modifies node, head, nodes
    ensures Ring(head, nodes + [node])
  {
    node.prev := head.prev;
    node.next := head;
    head.prev.next := node;
    head.prev := node;
    assert (nodes + [node])[|nodes|] == node && (nodes + [node])[..|nodes|] == nodes;
  }

  /** `IQUEUE_DEL` on the `k`-th node. */
  method Del(entry: QueueHead, ghost head: QueueHead, ghost nodes: seq<QueueHead>, ghost k: nat)
    requires Ring(head, nodes) && k < |nodes| && nodes[k] == entry
    modifies head, nodes
    ensures Ring(head, nodes[..k] + nodes[k + 1..])
    ensures entry.next == null && entry.prev == null
  {
    Links(head, nodes, k);
    Links(head, nodes, k + 1);
    entry.next.prev := entry.prev;
    entry.prev.next := entry.next;
    entry.next := null;
    entry.prev := null;
    ghost var rest := nodes[..k] + nodes[k + 1..];
    assert forall i :: 0 <= i < |rest| ==> rest[i] == nodes[if i < k then i else i + 1];
  }

  /** `IQUEUE_DEL_INIT`: the node becomes an empty ring of its own. */
  method DelInit(entry: QueueHead, ghost head: QueueHead, ghost nodes: seq<QueueHead>, ghost k: nat)
    requires Ring(head, nodes) && k < |nodes| && nodes[k] == entry
    modifies head, nodes
    ensures Ring(head, nodes[..k] + nodes[k + 1..]) && Ring(entry, [])
  {
    Del(entry, head, nodes, k);
    ghost var rest := nodes[..k] + nodes[k + 1..];
    assert forall i :: 0 <= i < |rest| ==> rest[i] == nodes[if i < k then i else i + 1];
    Init(entry);
  }

  /** Two rings that share no node. */
  ghost predicate Disjoint(list: QueueHead, xs: seq<QueueHead>, head: QueueHead, ys: seq<QueueHead>) {
    list != head && list !in ys && head !in xs && forall i, j :: 0 <= i < |xs| && 0 <= j < |ys| ==> xs[i] != ys[j]
  }

  /** `iqueue_splice`: the nodes of `list` go to the front of `head`; `list` still points at them. */
  method Splice(list: QueueHead, head: QueueHead, ghost xs: seq<QueueHead>, ghost ys: seq<QueueHead>)
    requires Ring(list, xs) && Ring(head, ys) && Disjoint(list, xs, head, ys)
    modifies head, xs, ys
    ensures Ring(head, xs + ys)
  {
    if list != list.next {
      var first, last := list.next, list.prev;
      var at := head.next;
      first.prev := head;
      head.next := first;
      last.next := at;
      at.prev := last;
      ghost var zs := xs + ys;
      assert zs[0] == first && zs[|xs| - 1] == last && forall i :: 0 <= i < |ys| ==> zs[|xs| + i] == ys[i];
    } else {
      assert xs + ys == ys;
    }
  }

  /** `iqueue_splice_init`: and `list` is empty afterwards. */
  method SpliceInit(list: QueueHead, head: QueueHead, ghost xs: seq<QueueHead>, ghost ys: seq<QueueHead>)
    requires Ring(list, xs) && Ring(head, ys) && Disjoint(list, xs, head, ys)
    modifies list, head, xs, ys
    ensures Ring(head, xs + ys) && Ring(list, [])
  {
    Splice(list, head, xs, ys);
    assert list !in xs + ys;
    Init(list);
  }
}
