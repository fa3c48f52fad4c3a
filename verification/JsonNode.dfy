/** The tree as it lies in memory: every node, string and key is a block of its
    own, known by its address.  A ledger holds the blocks that are allocated. */
module JsonNode {
  import opened JsonValue

  /** A C string on the heap. */
  datatype Block = Block(addr: nat, chars: string)

  datatype Key = NoKey | Key(name: Block)

  datatype Payload =
    | Invalid
    | NullNode
    | FalseNode
    | TrueNode
    | NumberNode(n: real, valueint: int)
    | StringNode(text: Block)
    | ArrayNode(children: seq<Node>)
    | ObjectNode(children: seq<Node>)

  datatype Node = Node(addr: nat, payload: Payload, key: Key)

  const INT_MIN: int := -0x8000_0000
  const INT_MAX: int := 0x7FFF_FFFF

  /** The integer that goes with a number: cut off towards zero, and at the ends of the range. */
  function Saturated(x: real): (i: int)
    ensures INT_MIN <= i <= INT_MAX
    ensures x == x.Floor as real && INT_MIN as real <= x <= INT_MAX as real ==> i as real == x
  {
    if x >= INT_MAX as real then INT_MAX
    else if x <= INT_MIN as real then INT_MIN
    else if x >= 0.0 then x.Floor
    else -(-x).Floor
  }

  lemma SaturatedIs(x: real)
    ensures x >= 2147483647.0 ==> Saturated(x) == 2147483647
    ensures x <= -2147483648.0 ==> Saturated(x) == -2147483648
    ensures 0.0 <= x < 2147483647.0 ==> Saturated(x) as real <= x < Saturated(x) as real + 1.0
    ensures -2147483648.0 < x < 0.0 ==> Saturated(x) as real - 1.0 < x <= Saturated(x) as real
  {
    if x < 0.0 {
      var y := -x;
      assert y.Floor as real <= y < y.Floor as real + 1.0;
    }
  }

  /** Trees that stand for a value: no invalid node, a key on every member, and with every number
      its integer. */
  predicate WellFormed(n: Node)
    decreases n, 1
  {
    match n.payload
    case Invalid => false
    case NumberNode(x, i) => i == Saturated(x)
    case ArrayNode(children) => AllWellFormed(children, false)
    case ObjectNode(children) => AllWellFormed(children, true)
    case _ => true
  }

  predicate AllWellFormed(nodes: seq<Node>, keyed: bool)
    decreases nodes, 0
  {
    nodes == [] ||
    (WellFormed(nodes[0]) && (keyed ==> nodes[0].key.Key?) && AllWellFormed(nodes[1..], keyed))
  }

  /** The value a tree stands for. */
  function Value(n: Node): Json
    requires WellFormed(n)
    decreases n, 1
  {
    match n.payload
    case NullNode => Null
    case FalseNode => Bool(false)
    case TrueNode => Bool(true)
    case NumberNode(x, _) => Number(x)
    case StringNode(text) => String(text.chars)
    case ArrayNode(children) => Array(Values(children))
    case ObjectNode(children) => Object(Members(children))
  }

  function Values(nodes: seq<Node>): (vs: seq<Json>)
    requires AllWellFormed(nodes, false)
    ensures |vs| == |nodes|
    decreases nodes, 0
  {
    if nodes == [] then [] else [Value(nodes[0])] + Values(nodes[1..])
  }

  function Members(nodes: seq<Node>): (ms: seq<Member>)
    requires AllWellFormed(nodes, true)
    ensures |ms| == |nodes|
    decreases nodes, 0
  {
    if nodes == [] then [] else [Member(nodes[0].key.name.chars, Value(nodes[0]))] + Members(nodes[1..])
  }

  /** The blocks a tree is made of, each as often as the tree refers to it. */
  ghost function Blocks(n: Node): multiset<nat>
    decreases n, 1
  {
    multiset{n.addr} + KeyBlocks(n.key) + PayloadBlocks(n.payload)
  }

  ghost function KeyBlocks(k: Key): multiset<nat> {
    if k.Key? then multiset{k.name.addr} else multiset{}
  }

  ghost function PayloadBlocks(p: Payload): multiset<nat>
    decreases p, 0
  {
    match p
    case StringNode(text) => multiset{text.addr}
    case ArrayNode(children) => AllBlocks(children)
    case ObjectNode(children) => AllBlocks(children)
    case _ => multiset{}
  }

  ghost function AllBlocks(nodes: seq<Node>): multiset<nat>
    decreases nodes, 0
  {
    if nodes == [] then multiset{} else Blocks(nodes[0]) + AllBlocks(nodes[1..])
  }

  lemma {:induction false} AppendNode(nodes: seq<Node>, n: Node, keyed: bool)
    requires AllWellFormed(nodes, keyed) && WellFormed(n) && (keyed ==> n.key.Key?)
    ensures AllWellFormed(nodes + [n], keyed)
    ensures !keyed ==> Values(nodes + [n]) == Values(nodes) + [Value(n)]
    ensures keyed ==> Members(nodes + [n]) == Members(nodes) + [Member(n.key.name.chars, Value(n))]
  {
    hide WellFormed, Value;
    if nodes == [] {
      assert nodes + [n] == [n];
    } else {
      AppendNode(nodes[1..], n, keyed);
      assert (nodes + [n])[1..] == nodes[1..] + [n];
    }
  }

  lemma {:induction false} AppendBlocks(nodes: seq<Node>, n: Node)
    ensures AllBlocks(nodes + [n]) == AllBlocks(nodes) + Blocks(n)
  {
    hide Blocks;
    if nodes == [] {
      assert nodes + [n] == [n];
    } else {
      AppendBlocks(nodes[1..], n);
      assert (nodes + [n])[1..] == nodes[1..] + [n];
    }
  }

  /** The allocator. */
  class Heap {
    /** Addresses handed out and not yet freed. */
    ghost var live: multiset<nat>
    /** How many allocations have failed. */
    ghost var failures: nat
    var next: nat

    ghost predicate Valid()
      reads this
    {
      next > 0 && forall p :: p in live ==> live[p] == 1 && 0 < p < next
    }

    constructor ()
      ensures Valid() && live == multiset{} && failures == 0
    {
      live, failures, next := multiset{}, 0, 1;
    }

    /** `malloc`: a new block, or 0 when there is no memory. */
    method Allocate() returns (p: nat)
      requires Valid()
      modifies this
      ensures Valid()
      ensures p != 0 ==> p !in old(live) && live == old(live) + multiset{p} && failures == old(failures)
      ensures p == 0 ==> live == old(live) && failures == old(failures) + 1
    {
      if * {
        p, failures := 0, failures + 1;
      } else {
        p, live, next := next, live + multiset{next}, next + 1;
      }
    }

    /** `free`: only of a block that is allocated. */
    method Free(p: nat, ghost rest: multiset<nat>)
      requires Valid() && live == rest + multiset{p}
      modifies this
      ensures Valid() && live == rest && failures == old(failures)
    {
      forall q | q in rest ensures rest[q] == 1 && 0 < q < next {
        assert q in live && live[q] == rest[q] + multiset{p}[q];
      }
      live := rest;
    }

    /** `cJSON_Delete` on the first node of a sibling list: it frees them all.
        Every block is freed once, for `Free` asks that it be allocated. */
    method Delete(chain: seq<Node>, ghost rest: multiset<nat>)
      requires Valid() && live == rest + AllBlocks(chain)
      modifies this
      ensures Valid() && live == rest && failures == old(failures)
      decreases chain, 1
    {
      hide Blocks;
      var i := 0;
      assert chain[0..] == chain;
      while i < |chain|
        invariant 0 <= i <= |chain|
        invariant Valid() && failures == old(failures)
        invariant live == rest + AllBlocks(chain[i..])
      {
        assert chain[i..][1..] == chain[i + 1..];
        DeleteItem(chain[i], rest + AllBlocks(chain[i + 1..]));
        i := i + 1;
      }
    }

    /** One turn of its loop: children first, then the strings, then the node. */
    method DeleteItem(item: Node, ghost rest: multiset<nat>)
      requires Valid() && live == rest + Blocks(item)
      modifies this
      ensures Valid() && live == rest && failures == old(failures)
      decreases item, 0
    {
      hide AllBlocks;
      ghost var name := rest + multiset{item.addr};
      ghost var payload := name + KeyBlocks(item.key);
      if item.payload.ArrayNode? || item.payload.ObjectNode? {
        Delete(item.payload.children, payload);
      }
      if item.payload.StringNode? {
        Free(item.payload.text.addr, payload);
      }
      if item.key.Key? {
        Free(item.key.name.addr, name);
      }
      Free(item.addr, rest);
    }
  }
}
