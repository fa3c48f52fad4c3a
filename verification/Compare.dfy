/** `cJSON_Compare` and the member lookup it uses. */
module Compare {
  import opened JsonValue
  import opened JsonNode

  const DOUBLE_PRECISION: real := 0.0000000000000001

  function ToLower(c: char): char {
    if 'A' <= c <= 'Z' then (c as int - 'A' as int + 'a' as int) as char else c
  }

  function Fold(s: string): (f: string)
    ensures |f| == |s| && forall i :: 0 <= i < |s| ==> f[i] == ToLower(s[i])
  {
    seq(|s|, i requires 0 <= i < |s| => ToLower(s[i]))
  }

  // ----- letters in two cases

  const UPPER: string := "ABCDEFGHIJKLMNOPQRSTUVWXYZ"
  const LOWER: string := "abcdefghijklmnopqrstuvwxyz"

  /** The same character, or the same letter of the two alphabets. */
  predicate Recased(c: char, d: char) {
    c == d || exists i :: 0 <= i < 26 && ((c == UPPER[i] && d == LOWER[i]) || (c == LOWER[i] && d == UPPER[i]))
  }

  /** The same text but for the case of its letters, chosen one by one. */
  predicate SameLetters(s: string, t: string) {
    |s| == |t| && forall i :: 0 <= i < |s| ==> Recased(s[i], t[i])
  }

  lemma UpperAt(i: nat)
    requires i < 26
    ensures |UPPER| == 26 && UPPER[i] as int == 'A' as int + i
  {
  }

  lemma LowerAt(i: nat)
    requires i < 26
    ensures |LOWER| == 26 && LOWER[i] as int == 'a' as int + i
  {
  }

  /** Two characters fold alike exactly if they are the same or one letter in two cases. */
  lemma FoldsAlike(c: char, d: char)
    ensures ToLower(c) == ToLower(d) <==> Recased(c, d)
  {
    forall i: nat | i < 26
      ensures ToLower(UPPER[i]) == ToLower(LOWER[i])
    {
      UpperAt(i);
      LowerAt(i);
    }
    if ToLower(c) == ToLower(d) && c != d {
      var i := ToLower(c) as int - 'a' as int;
      UpperAt(i);
      LowerAt(i);
    }
  }

  lemma FoldIsRecasing(s: string, t: string)
    ensures Fold(s) == Fold(t) <==> SameLetters(s, t)
  {
    hide ToLower, Recased;
    if |s| == |t| {
      forall i | 0 <= i < |s|
        ensures Fold(s)[i] == Fold(t)[i] <==> Recased(s[i], t[i])
      {
        FoldsAlike(s[i], t[i]);
      }
    }
  }

  /** How keys are told apart. */
  function FoldKey(s: string, caseSensitive: bool): string {
    if caseSensitive then s else Fold(s)
  }

  /** Number of nodes. */
  function Size(n: Node): (k: nat)
    ensures k > 0
    ensures n.payload.ArrayNode? || n.payload.ObjectNode? ==>
      forall i :: 0 <= i < |n.payload.children| ==> Size(n.payload.children[i]) < k
    decreases n, 1
  {
    match n.payload
    case ArrayNode(children) => 1 + SizeAll(children)
    case ObjectNode(children) => 1 + SizeAll(children)
    case _ => 1
  }

  function SizeAll(nodes: seq<Node>): (k: nat)
    ensures forall i :: 0 <= i < |nodes| ==> Size(nodes[i]) <= k
    decreases nodes, 0
  {
    if nodes == [] then 0
    else
      assert forall i :: 1 <= i < |nodes| ==> nodes[i] == nodes[1..][i - 1];
      Size(nodes[0]) + SizeAll(nodes[1..])
  }

  /** `get_object_item`: index of the first child named `name`, or the number of children.
      Looking case-sensitively, a child without a name ends the search. */
  function Find(nodes: seq<Node>, name: string, caseSensitive: bool): (k: nat)
    ensures k <= |nodes|
    ensures k < |nodes| ==> nodes[k].key.Key?
    ensures k < |nodes| ==> FoldKey(nodes[k].key.name.chars, caseSensitive) == FoldKey(name, caseSensitive)
  {
    if nodes == [] then 0
    else if nodes[0].key.NoKey? then
      if caseSensitive then |nodes| else 1 + Find(nodes[1..], name, caseSensitive)
    else if FoldKey(nodes[0].key.name.chars, caseSensitive) == FoldKey(name, caseSensitive) then 0
    else 1 + Find(nodes[1..], name, caseSensitive)
  }

  /** `compare_double`. */
  predicate Near(x: real, y: real) {
    -DOUBLE_PRECISION <= x - y <= DOUBLE_PRECISION
  }

  /** A child whose name is `name`, letter case aside where it does not matter. */
  predicate Named(n: Node, name: string, caseSensitive: bool) {
    n.key.Key? && (if caseSensitive then n.key.name.chars == name else SameLetters(n.key.name.chars, name))
  }

  /** Looking case-sensitively, a child without a name ends the search. */
  predicate Reached(nodes: seq<Node>, j: nat, caseSensitive: bool)
    requires j <= |nodes|
  {
    caseSensitive ==> forall i :: 0 <= i < j ==> nodes[i].key.Key?
  }

  /** `k` is the first child of the name that is reached, or the number of children. */
  predicate FirstNamed(nodes: seq<Node>, name: string, caseSensitive: bool, k: nat) {
    && k <= |nodes|
    && (k < |nodes| ==> Named(nodes[k], name, caseSensitive) && Reached(nodes, k, caseSensitive))
    && forall j :: 0 <= j < k && Reached(nodes, j, caseSensitive) ==> !Named(nodes[j], name, caseSensitive)
  }

  lemma {:induction false} FindsFirst(nodes: seq<Node>, name: string, caseSensitive: bool)
    ensures FirstNamed(nodes, name, caseSensitive, Find(nodes, name, caseSensitive))
  {
    hide Fold, SameLetters;
    if nodes != [] {
      var k := Find(nodes, name, caseSensitive);
      if nodes[0].key.Key? {
        FoldIsRecasing(nodes[0].key.name.chars, name);
      }
      if k > 0 && (nodes[0].key.Key? || !caseSensitive) {
        FindsFirst(nodes[1..], name, caseSensitive);
        forall j | 0 <= j < k && Reached(nodes, j, caseSensitive)
          ensures !Named(nodes[j], name, caseSensitive)
        {
          if j > 0 {
            assert Reached(nodes[1..], j - 1, caseSensitive);
            assert nodes[j] == nodes[1..][j - 1];
          }
        }
      } else if k > 0 {
        assert !Named(nodes[0], name, caseSensitive);
      }
    }
  }

  /** The name may be written in any mix of letter cases. */
  lemma {:induction false} FindRecased(nodes: seq<Node>, name: string, other: string)
    requires SameLetters(name, other)
    ensures Find(nodes, name, false) == Find(nodes, other, false)
  {
    hide Fold, SameLetters;
    FoldIsRecasing(name, other);
    if nodes != [] {
      FindRecased(nodes[1..], name, other);
    }
  }

  /** What `cJSON_Compare` decides. */
  predicate Same(a: Node, b: Node, caseSensitive: bool)
    decreases Size(a) + Size(b), 2
  {
    match a.payload
    case Invalid => false
    case NullNode => b.payload.NullNode?
    case FalseNode => b.payload.FalseNode?
    case TrueNode => b.payload.TrueNode?
    case NumberNode(x, _) =>
      b.payload.NumberNode? && (a.addr == b.addr || Near(x, b.payload.n))
    case StringNode(text) =>
      b.payload.StringNode? && (a.addr == b.addr || text.chars == b.payload.text.chars)
    case ArrayNode(elements) =>
      b.payload.ArrayNode? && (a.addr == b.addr ||
        (|elements| == |b.payload.children| &&
         forall i :: 0 <= i < |elements| ==> Same(elements[i], b.payload.children[i], caseSensitive)))
    case ObjectNode(_) =>
      b.payload.ObjectNode? && (a.addr == b.addr ||
        (AllMatch(a, b, caseSensitive) && AllMatch(b, a, caseSensitive)))
  }

  /** One of the two directions in which objects are compared. */
  predicate AllMatch(a: Node, b: Node, caseSensitive: bool)
    requires a.payload.ObjectNode? && b.payload.ObjectNode?
    decreases Size(a) + Size(b), 1
  {
    forall i :: 0 <= i < |a.payload.children| ==> Matches(a, i, b, caseSensitive)
  }

  /** The `i`-th member of `a` has a member of its name in `b` that compares equal. */
  predicate Matches(a: Node, i: nat, b: Node, caseSensitive: bool)
    requires a.payload.ObjectNode? && i < |a.payload.children| && b.payload.ObjectNode?
    decreases Size(a) + Size(b), 0
  {
    var m := a.payload.children[i];
    m.key.Key? &&
    var k := Find(b.payload.children, m.key.name.chars, caseSensitive);
    k < |b.payload.children| && Same(m, b.payload.children[k], caseSensitive)
  }

  // ----- the loops

  /** What a read at `i` gives: the string, then its NUL. */
  function At(s: string, i: nat): char
    requires i <= |s|
  {
    if i < |s| then s[i] else '\0'
  }

  /** `case_insensitive_strcmp` on C strings. */
  method CaseInsensitiveStrcmp(s: string, t: string) returns (r: int)
    requires NulFree(s) && NulFree(t)
    ensures r == 0 <==> SameLetters(s, t)
    ensures r == 0 <==> Fold(s) == Fold(t)
    ensures r != 0 ==> exists i: nat ::
      && i <= |s| && i <= |t| && Fold(s)[..i] == Fold(t)[..i]
      && r == ToLower(At(s, i)) as int - ToLower(At(t, i)) as int
  {
    NoNul(s);
    NoNul(t);
    FoldIsRecasing(s, t);
    var i := 0;
    while ToLower(At(s, i)) == ToLower(At(t, i))
      invariant i <= |s| && i <= |t|
      invariant forall k :: 0 <= k < i ==> Fold(s)[k] == Fold(t)[k]
      decreases |s| - i
    {
      if At(s, i) == '\0' {
        return 0;
      }
      i := i + 1;
    }
    r := ToLower(At(s, i)) as int - ToLower(At(t, i)) as int;
    assert Fold(s)[..i] == Fold(t)[..i];
    if |s| == |t| {
      assert Fold(s)[i] != Fold(t)[i];
    }
  }

  lemma NoNul(s: string)
    requires NulFree(s)
    ensures forall k :: 0 <= k < |s| ==> s[k] != '\0'
  {
    forall k | 0 <= k < |s| ensures s[k] != '\0' {
      assert s[k] in s;
    }
  }

  /** Names are C strings. */
  predicate NamesNulFree(nodes: seq<Node>) {
    forall i :: 0 <= i < |nodes| && nodes[i].key.Key? ==> NulFree(nodes[i].key.name.chars)
  }

  /** The loops of `get_object_item`. */
  method GetObjectItem(nodes: seq<Node>, name: string, caseSensitive: bool) returns (k: nat)
    requires NulFree(name) && NamesNulFree(nodes)
    ensures k == Find(nodes, name, caseSensitive)
    ensures FirstNamed(nodes, name, caseSensitive, k)
  {
    hide SameLetters, FirstNamed;
    FindsFirst(nodes, name, caseSensitive);
    k := 0;
    assert nodes[0..] == nodes;
    if caseSensitive {
      while k < |nodes| && nodes[k].key.Key? && name != nodes[k].key.name.chars
        invariant k <= |nodes|
        invariant Find(nodes, name, true) == k + Find(nodes[k..], name, true)
      {
        assert nodes[k..][1..] == nodes[k + 1..];
        k := k + 1;
      }
      assert k < |nodes| ==> nodes[k..][0] == nodes[k];
      if k < |nodes| && nodes[k].key.NoKey? {
        k := |nodes|;
      }
    } else {
      while k < |nodes|
        invariant k <= |nodes|
        invariant Find(nodes, name, false) == k + Find(nodes[k..], name, false)
      {
        assert nodes[k..][0] == nodes[k];
        if nodes[k].key.Key? {
          var r := CaseInsensitiveStrcmp(name, nodes[k].key.name.chars);
          if r == 0 {
            break;
          }
        }
        assert nodes[k..][1..] == nodes[k + 1..];
        k := k + 1;
      }
    }
  }

  /** Every name in a tree is a C string. */
  predicate TreeNulFree(n: Node)
    decreases n
  {
    n.payload.ArrayNode? || n.payload.ObjectNode? ==>
      NamesNulFree(n.payload.children) &&
      forall i :: 0 <= i < |n.payload.children| ==> TreeNulFree(n.payload.children[i])
  }

  /** `cJSON_Compare`. */
  method CompareNodes(a: Node, b: Node, caseSensitive: bool) returns (r: bool)
    requires TreeNulFree(a) && TreeNulFree(b)
    ensures r == Same(a, b, caseSensitive)
    decreases Size(a) + Size(b), 1
  {
    match (a.payload, b.payload)
    case (NullNode, NullNode) => r := true;
    case (FalseNode, FalseNode) => r := true;
    case (TrueNode, TrueNode) => r := true;
    case (NumberNode(x, _), NumberNode(y, _)) =>
      r := a.addr == b.addr || (if x - y >= 0.0 then x - y else y - x) <= DOUBLE_PRECISION;
    case (StringNode(s), StringNode(t)) =>
      r := a.addr == b.addr || s.chars == t.chars;
    case (ArrayNode(x), ArrayNode(y)) =>
      r := a.addr == b.addr;
      if !r {
        r := CheckElements(a, b, caseSensitive);
      }
    case (ObjectNode(_), ObjectNode(_)) =>
      r := a.addr == b.addr;
      if !r {
        r := CheckMembers(a, b, caseSensitive);
        if r {
          r := CheckMembers(b, a, caseSensitive);
        }
      }
    case _ => r := false;
  }

  /** The loop over two arrays. */
  method CheckElements(a: Node, b: Node, caseSensitive: bool) returns (r: bool)
    requires TreeNulFree(a) && TreeNulFree(b) && a.payload.ArrayNode? && b.payload.ArrayNode?
    ensures r <==>
      |a.payload.children| == |b.payload.children| &&
      forall i :: 0 <= i < |a.payload.children| ==>
        Same(a.payload.children[i], b.payload.children[i], caseSensitive)
    decreases Size(a) + Size(b), 0
  {
    var x, y := a.payload.children, b.payload.children;
    var i := 0;
    while i < |x| && i < |y|
      invariant i <= |x| && i <= |y|
      invariant forall k :: 0 <= k < i ==> Same(x[k], y[k], caseSensitive)
    {
      r := CompareNodes(x[i], y[i], caseSensitive);
      if !r {
        return false;
      }
      i := i + 1;
    }
    r := i == |x| && i == |y|;
  }

  /** One of the two loops over the members of an object. */
  method CheckMembers(a: Node, b: Node, caseSensitive: bool) returns (r: bool)
    requires TreeNulFree(a) && TreeNulFree(b) && a.payload.ObjectNode? && b.payload.ObjectNode?
    ensures r == AllMatch(a, b, caseSensitive)
    decreases Size(a) + Size(b), 0
  {
    var members, others := a.payload.children, b.payload.children;
    var i := 0;
    while i < |members|
      invariant i <= |members|
      invariant forall k :: 0 <= k < i ==> Matches(a, k, b, caseSensitive)
    {
      var k := |others|;
      if members[i].key.Key? {
        k := GetObjectItem(others, members[i].key.name.chars, caseSensitive);
      }
      if k == |others| {
        assert !Matches(a, i, b, caseSensitive);
        return false;
      }
      r := CompareNodes(members[i], others[k], caseSensitive);
      if !r {
        assert !Matches(a, i, b, caseSensitive);
        return false;
      }
      i := i + 1;
    }
    r := true;
  }
}
