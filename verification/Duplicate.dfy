/** `cJSON_Duplicate`: a deep copy in new blocks. */
module Duplicate {
  import opened JsonValue
  import opened JsonNode
  import opened Compare
  import opened CompareLaws

  /** A tree without its addresses. */
  function Erase(n: Node): Node
    decreases n, 1
  {
    Node(0, ErasePayload(n.payload), EraseKey(n.key))
  }

  function EraseKey(k: Key): Key {
    if k.Key? then Key(Block(0, k.name.chars)) else NoKey
  }

  function ErasePayload(p: Payload): Payload
    decreases p, 0
  {
    match p
    case StringNode(text) => StringNode(Block(0, text.chars))
    case ArrayNode(children) => ArrayNode(EraseAll(children))
    case ObjectNode(children) => ObjectNode(EraseAll(children))
    case _ => p
  }

  function EraseAll(nodes: seq<Node>): (e: seq<Node>)
    ensures |e| == |nodes| && forall i :: 0 <= i < |nodes| ==> e[i] == Erase(nodes[i])
    decreases nodes, 0
  {
    if nodes == [] then [] else [Erase(nodes[0])] + EraseAll(nodes[1..])
  }

  /** A copy that is not recursive has no children. */
  function Shallow(p: Payload): Payload {
    match p
    case ArrayNode(_) => ArrayNode([])
    case ObjectNode(_) => ObjectNode([])
    case _ => p
  }

  /** `cJSON_strdup`. */
  method Strdup(heap: Heap, text: Block) returns (ok: bool, copy: Block)
    requires heap.Valid()
    modifies heap
    ensures heap.Valid() && (ok || heap.failures > old(heap.failures)) && old(heap.failures) <= heap.failures
    ensures ok ==> copy.chars == text.chars && heap.live == old(heap.live) + multiset{copy.addr}
    ensures !ok ==> heap.live == old(heap.live)
  {
    var addr := heap.Allocate();
    ok, copy := addr != 0, Block(addr, text.chars);
  }

  /** `cJSON_Duplicate` on a node; when it fails nothing stays allocated. */
  method DuplicateNode(heap: Heap, item: Node, recurse: bool) returns (ok: bool, copy: Node)
    requires heap.Valid()
    modifies heap
    ensures heap.Valid() && (ok || heap.failures > old(heap.failures)) && old(heap.failures) <= heap.failures
    ensures ok ==> Erase(copy) == Erase(if recurse then item else item.(payload := Shallow(item.payload)))
    ensures ok ==> heap.live == old(heap.live) + Blocks(copy)
    ensures !ok ==> heap.live == old(heap.live)
    decreases item, 1
  {
    hide ErasePayload, PayloadBlocks, Heap.Valid;
    ghost var before := heap.live;
    var addr := heap.Allocate();
    copy := Node(addr, Invalid, NoKey);
    if addr == 0 {
      return false, copy;
    }
    var payload, key := Invalid, NoKey;
    ok, payload := CopyPayload(heap, item.payload);
    if ok {
      ok, key := CopyKey(heap, item.key);
    }
    if ok && recurse {
      ok, payload := CopyChildren(heap, item.payload, payload, before + multiset{addr} + KeyBlocks(key));
    }
    copy := Node(addr, payload, key);
    if !ok {
      heap.DeleteItem(copy, before);
    }
  }

  /** Type, number and string; the child list starts empty. */
  method CopyPayload(heap: Heap, p: Payload) returns (ok: bool, q: Payload)
    requires heap.Valid()
    modifies heap
    ensures heap.Valid() && (ok || heap.failures > old(heap.failures)) && old(heap.failures) <= heap.failures
    ensures ok ==> ErasePayload(q) == ErasePayload(Shallow(p))
    ensures ok && (p.ArrayNode? || p.ObjectNode?) ==> q == Shallow(p)
    ensures ok && !(p.ArrayNode? || p.ObjectNode?) ==> ErasePayload(q) == ErasePayload(p)
    ensures heap.live == old(heap.live) + PayloadBlocks(q)
  {
    hide Heap.Valid;
    ok, q := true, Invalid;
    match p {
      case StringNode(text) =>
        var chars;
        ok, chars := Strdup(heap, text);
        if ok {
          q := StringNode(chars);
        }
      case ArrayNode(_) => q := ArrayNode([]);
      case ObjectNode(_) => q := ObjectNode([]);
      case _ => q := p;
    }
  }

  /** The children, into the payload `q` that has none yet. */
  method CopyChildren(heap: Heap, p: Payload, q: Payload, ghost rest: multiset<nat>)
      returns (ok: bool, q': Payload)
    requires heap.Valid()
    requires heap.live == rest + PayloadBlocks(q)
    requires if p.ArrayNode? || p.ObjectNode? then q == Shallow(p) else ErasePayload(q) == ErasePayload(p)
    modifies heap
    ensures heap.Valid() && (ok || heap.failures > old(heap.failures)) && old(heap.failures) <= heap.failures
    ensures ok ==> ErasePayload(q') == ErasePayload(p)
    ensures heap.live == rest + PayloadBlocks(q')
    decreases p, 0
  {
    hide EraseAll, AllBlocks, Heap.Valid;
    ok, q' := true, q;
    NothingCopied();
    if p.ArrayNode? || p.ObjectNode? {
      var children;
      ok, children := DuplicateChildren(heap, p.children);
      q' := if p.ArrayNode? then ArrayNode(children) else ObjectNode(children);
    }
  }

  method CopyKey(heap: Heap, k: Key) returns (ok: bool, key: Key)
    requires heap.Valid()
    modifies heap
    ensures heap.Valid() && (ok || heap.failures > old(heap.failures)) && old(heap.failures) <= heap.failures
    ensures ok ==> EraseKey(key) == EraseKey(k)
    ensures heap.live == old(heap.live) + KeyBlocks(key)
  {
    hide Heap.Valid;
    ok, key := true, NoKey;
    if k.Key? {
      var name;
      ok, name := Strdup(heap, k.name);
      if ok {
        key := Key(name);
      }
    }
  }

  /** The loop over the children; on failure the copies made so far are left to be deleted. */
  method DuplicateChildren(heap: Heap, children: seq<Node>) returns (ok: bool, copies: seq<Node>)
    requires heap.Valid()
    modifies heap
    ensures heap.Valid() && (ok || heap.failures > old(heap.failures)) && old(heap.failures) <= heap.failures
    ensures ok ==> EraseAll(copies) == EraseAll(children)
    ensures heap.live == old(heap.live) + AllBlocks(copies)
    decreases children, 0
  {
    hide Erase, Blocks, AllBlocks, EraseAll, Heap.Valid;
    copies := [];
    NothingCopied();
    var i := 0;
    while i < |children|
      invariant 0 <= i <= |children| && |copies| == i
      invariant heap.Valid() && old(heap.failures) <= heap.failures
      invariant forall k :: 0 <= k < i ==> Erase(copies[k]) == Erase(children[k])
      invariant heap.live == old(heap.live) + AllBlocks(copies)
    {
      var copy;
      ok, copy := DuplicateNode(heap, children[i], true);
      if !ok {
        return;
      }
      AppendBlocks(copies, copy);
      copies := copies + [copy];
      i := i + 1;
    }
    ok := true;
    assert EraseAll(copies) == EraseAll(children);
  }

  lemma NothingCopied()
    ensures AllBlocks([]) == multiset{}
  {
  }

  // ----- what the copy is

  /** Trees that differ in addresses only stand for the same value. */
  lemma {:induction false} SameErasure(a: Node, b: Node)
    requires Erase(a) == Erase(b)
    ensures WellFormed(a) == WellFormed(b) && (WellFormed(a) ==> Value(a) == Value(b))
    decreases a, 1
  {
    match a.payload
    case ArrayNode(x) => SameErasures(x, b.payload.children, false);
    case ObjectNode(x) => SameErasures(x, b.payload.children, true);
    case _ =>
  }

  lemma {:induction false} SameErasures(x: seq<Node>, y: seq<Node>, keyed: bool)
    requires EraseAll(x) == EraseAll(y)
    ensures AllWellFormed(x, keyed) == AllWellFormed(y, keyed)
    ensures AllWellFormed(x, keyed) && !keyed ==> Values(x) == Values(y)
    ensures AllWellFormed(x, keyed) && keyed ==> Members(x) == Members(y)
    decreases x, 0
  {
    hide WellFormed, Value;
    assert |x| == |y|;
    if x != [] {
      assert Erase(x[0]) == EraseAll(x)[0] == EraseAll(y)[0] == Erase(y[0]);
      SameErasure(x[0], y[0]);
      assert EraseAll(x[1..]) == EraseAll(x)[1..] && EraseAll(y[1..]) == EraseAll(y)[1..];
      SameErasures(x[1..], y[1..], keyed);
    }
  }

  /** Node addresses are among the blocks. */
  lemma {:induction false} AddressesAreBlocks(n: Node, p: nat)
    requires p in Addresses(n)
    ensures p in Blocks(n)
    decreases n, 1
  {
    hide AllAddresses, AllBlocks;
    if p != n.addr {
      AllAddressesAreBlocks(n.payload.children, p);
    }
  }

  lemma {:induction false} AllAddressesAreBlocks(nodes: seq<Node>, p: nat)
    requires p in AllAddresses(nodes)
    ensures p in AllBlocks(nodes)
    decreases nodes, 0
  {
    hide Blocks;
    if p in Addresses(nodes[0]) {
      AddressesAreBlocks(nodes[0], p);
    } else {
      AllAddressesAreBlocks(nodes[1..], p);
    }
  }

  /** A copy in blocks of its own compares equal to the original if the original is uniform,
      and, where its different numbers are further apart than the tolerance, only then. */
  lemma CopyComparesEqual(t: Node, copy: Node, live: multiset<nat>, caseSensitive: bool)
    requires WellFormed(t) && Erase(copy) == Erase(t)
    requires Blocks(t) <= live && forall p :: p in Blocks(copy) ==> p !in live
    ensures Uniform(Value(t), caseSensitive) ==> Same(t, copy, caseSensitive)
    ensures Separated(Numbers(t), Numbers(t)) ==>
      (Same(t, copy, caseSensitive) <==> Uniform(Value(t), caseSensitive))
  {
    hide WellFormed, Value, Separated, Numbers, Uniform, Canon, Blocks, Apart, Erase, Same;
    SameErasure(t, copy);
    SameNumbers(t, copy);
    CopyApart(t, copy, live);
    CompareIsCanonical(t, copy, caseSensitive);
  }

  /** Trees in different blocks share no node. */
  lemma CopyApart(t: Node, copy: Node, live: multiset<nat>)
    requires Blocks(t) <= live && forall p :: p in Blocks(copy) ==> p !in live
    ensures Apart(t, copy)
  {
    hide Blocks, Addresses;
    forall p | p in Addresses(t) ensures p !in Addresses(copy) {
      AddressesAreBlocks(t, p);
      if p in Addresses(copy) {
        AddressesAreBlocks(copy, p);
      }
    }
  }

  lemma {:induction false} SameNumbers(a: Node, b: Node)
    requires Erase(a) == Erase(b)
    ensures Numbers(a) == Numbers(b)
    decreases a, 1
  {
    match a.payload
    case ArrayNode(x) => AllSameNumbers(x, b.payload.children);
    case ObjectNode(x) => AllSameNumbers(x, b.payload.children);
    case _ =>
  }

  lemma {:induction false} AllSameNumbers(x: seq<Node>, y: seq<Node>)
    requires EraseAll(x) == EraseAll(y)
    ensures AllNumbers(x) == AllNumbers(y)
    decreases x, 0
  {
    hide Numbers;
    assert |x| == |y|;
    if x != [] {
      assert Erase(x[0]) == EraseAll(x)[0] == EraseAll(y)[0] == Erase(y[0]);
      SameNumbers(x[0], y[0]);
      assert EraseAll(x[1..]) == EraseAll(x)[1..] && EraseAll(y[1..]) == EraseAll(y)[1..];
      AllSameNumbers(x[1..], y[1..]);
    }
  }

  // ----- exactly which copies compare equal

  /** Every repeated member compares equal to the first of its name. */
  predicate Consistent(n: Node, caseSensitive: bool)
    decreases n, 1
  {
    match n.payload
    case Invalid => false
    case ArrayNode(children) => forall i :: 0 <= i < |children| ==> Consistent(children[i], caseSensitive)
    case ObjectNode(children) => forall i :: 0 <= i < |children| ==> Agrees(n, i, caseSensitive)
    case _ => true
  }

  /** The `i`-th member is the first of its name and consistent, or compares equal to the first. */
  predicate Agrees(n: Node, i: nat, caseSensitive: bool)
    requires n.payload.ObjectNode? && i < |n.payload.children|
    decreases n, 0
  {
    var children := n.payload.children;
    && children[i].key.Key?
    && var k := Find(children, children[i].key.name.chars, caseSensitive);
    k < |children| &&
    if k == i then Consistent(children[i], caseSensitive) else Same(children[i], children[k], caseSensitive)
  }

  /** No node is twice in the tree. */
  ghost predicate Single(n: Node)
    decreases n
  {
    n.payload.ArrayNode? || n.payload.ObjectNode? ==>
      var c := n.payload.children;
      && (forall i :: 0 <= i < |c| ==> Single(c[i]))
      && (forall i, j :: 0 <= i < j < |c| ==> Apart(c[i], c[j]))
  }

  lemma {:induction false} BlocksAt(nodes: seq<Node>, i: nat, p: nat)
    requires i < |nodes|
    ensures AllBlocks(nodes)[p] >= Blocks(nodes[i])[p]
  {
    hide Blocks;
    if i > 0 {
      BlocksAt(nodes[1..], i - 1, p);
    }
  }

  lemma {:induction false} BlocksAtTwo(nodes: seq<Node>, i: nat, j: nat, p: nat)
    requires i < j < |nodes|
    ensures AllBlocks(nodes)[p] >= Blocks(nodes[i])[p] + Blocks(nodes[j])[p]
  {
    hide Blocks;
    if i > 0 {
      BlocksAtTwo(nodes[1..], i - 1, j - 1, p);
    } else {
      BlocksAt(nodes[1..], j - 1, p);
    }
  }

  /** A tree whose blocks are allocated once has no node twice. */
  lemma {:induction false} BlocksOnce(n: Node)
    requires forall p :: Blocks(n)[p] <= 1
    ensures Single(n)
    decreases n
  {
    hide AllBlocks, Addresses;
    if n.payload.ArrayNode? || n.payload.ObjectNode? {
      var c := n.payload.children;
      forall p: nat
        ensures AllBlocks(c)[p] <= 1
      {
        assert Blocks(n)[p] <= 1;
      }
      forall i | 0 <= i < |c|
        ensures Single(c[i])
      {
        forall p: nat
          ensures Blocks(c[i])[p] <= 1
        {
          BlocksAt(c, i, p);
        }
        BlocksOnce(c[i]);
      }
      forall i, j | 0 <= i < j < |c|
        ensures Apart(c[i], c[j])
      {
        ApartBlocks(c, i, j);
      }
    }
  }

  lemma ApartBlocks(nodes: seq<Node>, i: nat, j: nat)
    requires i < j < |nodes| && forall p: nat :: AllBlocks(nodes)[p] <= 1
    ensures Apart(nodes[i], nodes[j])
  {
    hide Blocks, AllBlocks, Addresses;
    forall p | p in Addresses(nodes[i])
      ensures p !in Addresses(nodes[j])
    {
      assert AllBlocks(nodes)[p] <= 1;
      AddressesAreBlocks(nodes[i], p);
      BlocksAtTwo(nodes, i, j, p);
      if p in Addresses(nodes[j]) {
        AddressesAreBlocks(nodes[j], p);
        assert false;
      }
    }
  }

  lemma {:induction false} FindErased(x: seq<Node>, y: seq<Node>, name: string, caseSensitive: bool)
    requires EraseAll(x) == EraseAll(y)
    ensures Find(x, name, caseSensitive) == Find(y, name, caseSensitive)
  {
    hide Erase, FoldKey;
    assert |x| == |y|;
    if x != [] {
      FirstErased(x, y, 0);
      assert EraseAll(x[1..]) == EraseAll(x)[1..] && EraseAll(y[1..]) == EraseAll(y)[1..];
      FindErased(x[1..], y[1..], name, caseSensitive);
    }
  }

  lemma FirstErased(x: seq<Node>, y: seq<Node>, i: nat)
    requires EraseAll(x) == EraseAll(y) && i < |x|
    ensures |x| == |y| && Erase(x[i]) == Erase(y[i])
    ensures x[i].key.Key? == y[i].key.Key? && (x[i].key.Key? ==> x[i].key.name.chars == y[i].key.name.chars)
  {
    hide ErasePayload;
    assert EraseAll(x)[i] == Erase(x[i]) && EraseAll(y)[i] == Erase(y[i]);
  }

  lemma ChildrenApart(a: Node, b: Node, i: nat, j: nat)
    requires Apart(a, b)
    requires a.payload.ArrayNode? || a.payload.ObjectNode?
    requires b.payload.ArrayNode? || b.payload.ObjectNode?
    requires i < |a.payload.children| && j < |b.payload.children|
    ensures Apart(a.payload.children[i], b.payload.children[j]) && a.addr != b.addr
  {
    assert Addresses(a.payload.children[i]) <= Addresses(a) && Addresses(b.payload.children[j]) <= Addresses(b);
    assert a.addr in Addresses(a) && b.addr in Addresses(b);
  }

  lemma RootsApart(a: Node, b: Node)
    requires Apart(a, b)
    ensures a.addr != b.addr
  {
    assert a.addr in Addresses(a) && b.addr in Addresses(b);
  }

  /** Comparison with a tree that shares no node does not depend on its addresses. */
  lemma {:induction false} SameErased(a: Node, b: Node, c: Node, caseSensitive: bool)
    requires Erase(b) == Erase(c) && Apart(a, b) && Apart(a, c)
    ensures Same(a, b, caseSensitive) == Same(a, c, caseSensitive)
    decreases Size(a) + Size(b), 1
  {
    hide Erase, Apart, Size, AllMatch;
    RootsApart(a, b);
    RootsApart(a, c);
    PayloadErased(b, c);
    if a.payload.ArrayNode? && b.payload.ArrayNode? {
      var x, y, z := a.payload.children, b.payload.children, c.payload.children;
      if |x| == |y| {
        forall i | 0 <= i < |x|
          ensures Same(x[i], y[i], caseSensitive) == Same(x[i], z[i], caseSensitive)
        {
          FirstErased(y, z, i);
          ChildrenApart(a, b, i, i);
          ChildrenApart(a, c, i, i);
          SmallerChildren(a, b, i, i);
          SameErased(x[i], y[i], z[i], caseSensitive);
        }
      }
    } else if a.payload.ObjectNode? && b.payload.ObjectNode? {
      MatchErased(a, b, c, caseSensitive);
    }
  }

  lemma PayloadErased(b: Node, c: Node)
    requires Erase(b) == Erase(c)
    ensures b.payload.Invalid? == c.payload.Invalid? && b.payload.NullNode? == c.payload.NullNode?
    ensures b.payload.FalseNode? == c.payload.FalseNode? && b.payload.TrueNode? == c.payload.TrueNode?
    ensures b.payload.NumberNode? == c.payload.NumberNode? && (b.payload.NumberNode? ==> b.payload.n == c.payload.n)
    ensures b.payload.StringNode? == c.payload.StringNode?
    ensures b.payload.StringNode? ==> b.payload.text.chars == c.payload.text.chars
    ensures b.payload.ArrayNode? == c.payload.ArrayNode? && b.payload.ObjectNode? == c.payload.ObjectNode?
    ensures b.payload.ArrayNode? || b.payload.ObjectNode? ==> EraseAll(b.payload.children) == EraseAll(c.payload.children)
  {
    hide EraseAll;
  }

  lemma SmallerChildren(a: Node, b: Node, i: nat, j: nat)
    requires a.payload.ArrayNode? || a.payload.ObjectNode?
    requires b.payload.ArrayNode? || b.payload.ObjectNode?
    requires i < |a.payload.children| && j < |b.payload.children|
    ensures Size(a.payload.children[i]) < Size(a) && Size(b.payload.children[j]) < Size(b)
  {
  }

  lemma {:induction false} MatchErased(a: Node, b: Node, c: Node, caseSensitive: bool)
    requires a.payload.ObjectNode? && b.payload.ObjectNode? && c.payload.ObjectNode?
    requires EraseAll(b.payload.children) == EraseAll(c.payload.children) && Apart(a, b) && Apart(a, c)
    ensures AllMatch(a, b, caseSensitive) == AllMatch(a, c, caseSensitive)
    ensures AllMatch(b, a, caseSensitive) == AllMatch(c, a, caseSensitive)
    decreases Size(a) + Size(b), 0
  {
    hide Erase, EraseAll, Apart, Size, Same;
    var x, y, z := a.payload.children, b.payload.children, c.payload.children;
    assert |y| == |z|;
    forall i | 0 <= i < |x|
      ensures Matches(a, i, b, caseSensitive) == Matches(a, i, c, caseSensitive)
    {
      if x[i].key.Key? {
        var k := Find(y, x[i].key.name.chars, caseSensitive);
        FindErased(y, z, x[i].key.name.chars, caseSensitive);
        if k < |y| {
          ChildErased(a, b, c, i, k);
          SameErased(x[i], y[k], z[k], caseSensitive);
        }
      }
    }
    forall i | 0 <= i < |y|
      ensures Matches(b, i, a, caseSensitive) == Matches(c, i, a, caseSensitive)
    {
      FirstErased(y, z, i);
      if y[i].key.Key? {
        var k := Find(x, y[i].key.name.chars, caseSensitive);
        if k < |x| {
          ChildErased(a, b, c, k, i);
          SameErased(x[k], y[i], z[i], caseSensitive);
          Symmetric(x[k], y[i], caseSensitive);
          Symmetric(x[k], z[i], caseSensitive);
        }
      }
    }
  }

  lemma ChildErased(a: Node, b: Node, c: Node, i: nat, k: nat)
    requires a.payload.ObjectNode? && b.payload.ObjectNode? && c.payload.ObjectNode?
    requires EraseAll(b.payload.children) == EraseAll(c.payload.children) && Apart(a, b) && Apart(a, c)
    requires i < |a.payload.children| && k < |b.payload.children|
    ensures k < |c.payload.children|
    ensures var x, y, z := a.payload.children[i], b.payload.children[k], c.payload.children[k];
      Erase(y) == Erase(z) && Apart(x, y) && Apart(x, z) && Size(x) < Size(a) && Size(y) < Size(b)
  {
    hide Erase, EraseAll, Apart, Size;
    FirstErased(b.payload.children, c.payload.children, k);
    ChildrenApart(a, b, i, k);
    ChildrenApart(a, c, i, k);
    SmallerChildren(a, b, i, k);
  }

  /** A tree compares equal to its copy exactly if every repeated member compares equal to the
      first of its name, whatever the numbers are. */
  lemma {:induction false} ApartExactly(t: Node, copy: Node, caseSensitive: bool)
    requires Erase(copy) == Erase(t) && Apart(t, copy) && Single(t)
    ensures Same(t, copy, caseSensitive) <==> Consistent(t, caseSensitive)
    decreases t, 1
  {
    hide Erase, Apart, AllMatch;
    RootsApart(t, copy);
    PayloadErased(t, copy);
    if t.payload.ArrayNode? {
      var x, y := t.payload.children, copy.payload.children;
      assert |x| == |y|;
      forall i | 0 <= i < |x|
        ensures Same(x[i], y[i], caseSensitive) <==> Consistent(x[i], caseSensitive)
      {
        FirstErased(x, y, i);
        ChildrenApart(t, copy, i, i);
        ApartExactly(x[i], y[i], caseSensitive);
      }
    } else if t.payload.ObjectNode? {
      MembersExactly(t, copy, caseSensitive);
    }
  }

  lemma {:induction false} MembersExactly(t: Node, copy: Node, caseSensitive: bool)
    requires t.payload.ObjectNode? && copy.payload.ObjectNode?
    requires EraseAll(t.payload.children) == EraseAll(copy.payload.children) && Apart(t, copy) && Single(t)
    ensures AllMatch(t, copy, caseSensitive) && AllMatch(copy, t, caseSensitive) <==> Consistent(t, caseSensitive)
    decreases t, 0
  {
    hide Erase, EraseAll, Apart, Same;
    var x, y := t.payload.children, copy.payload.children;
    assert |x| == |y|;
    forall i | 0 <= i < |x|
      ensures Matches(t, i, copy, caseSensitive) <==> Agrees(t, i, caseSensitive)
      ensures Matches(copy, i, t, caseSensitive) <==> Agrees(t, i, caseSensitive)
    {
      FirstErased(x, y, i);
      if x[i].key.Key? {
        var k := Find(x, x[i].key.name.chars, caseSensitive);
        FindErased(x, y, x[i].key.name.chars, caseSensitive);
        if k < |x| {
          PairExactly(t, copy, i, k, caseSensitive);
          if k == i {
            ApartExactly(x[i], y[i], caseSensitive);
          }
        }
      }
    }
  }

  /** A child and the copy of another compare as the two children do, either way round. */
  lemma PairExactly(t: Node, copy: Node, i: nat, k: nat, caseSensitive: bool)
    requires t.payload.ObjectNode? && copy.payload.ObjectNode?
    requires EraseAll(t.payload.children) == EraseAll(copy.payload.children) && Apart(t, copy) && Single(t)
    requires i < |t.payload.children| && k < |t.payload.children|
    ensures i < |copy.payload.children| && k < |copy.payload.children|
    ensures var x, y := t.payload.children, copy.payload.children;
      && Single(x[i]) && Apart(x[i], y[i]) && Erase(y[i]) == Erase(x[i])
      && (k != i ==> Same(x[i], y[k], caseSensitive) == Same(x[i], x[k], caseSensitive))
      && (k != i ==> Same(y[i], x[k], caseSensitive) == Same(x[i], x[k], caseSensitive))
      && (k == i ==> Same(y[i], x[i], caseSensitive) == Same(x[i], y[i], caseSensitive))
  {
    hide Erase, EraseAll, Same, Addresses;
    var x, y := t.payload.children, copy.payload.children;
    FirstErased(x, y, i);
    FirstErased(x, y, k);
    ChildrenApart(t, copy, i, i);
    ChildrenApart(t, copy, i, k);
    ChildrenApart(t, copy, k, i);
    if k != i {
      assert Apart(x[i], x[k]) && Apart(x[k], x[i]);
      SameErased(x[i], x[k], y[k], caseSensitive);
      SameErased(x[k], x[i], y[i], caseSensitive);
      Symmetric(x[k], x[i], caseSensitive);
      Symmetric(x[k], y[i], caseSensitive);
    } else {
      Symmetric(x[i], y[i], caseSensitive);
    }
  }

  /** A tree in blocks that are allocated once compares equal to a copy in blocks of its own
      exactly if every repeated member compares equal to the first of its name. */
  lemma CopyExactly(t: Node, copy: Node, live: multiset<nat>, caseSensitive: bool)
    requires Erase(copy) == Erase(t) && Blocks(t) <= live && (forall p :: p in live ==> live[p] == 1)
    requires forall p :: p in Blocks(copy) ==> p !in live
    ensures Same(t, copy, caseSensitive) <==> Consistent(t, caseSensitive)
  {
    hide Erase, Blocks, Apart, Single, Same, Consistent;
    CopyApart(t, copy, live);
    forall p: nat
      ensures Blocks(t)[p] <= 1
    {
      assert Blocks(t)[p] <= live[p];
    }
    BlocksOnce(t);
    ApartExactly(t, copy, caseSensitive);
  }
}
