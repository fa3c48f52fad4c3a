/** What comparison means: it is symmetric on all trees, and on trees whose numbers are equal
    or further apart than the tolerance it holds exactly when both are uniform and have the
    same canonical form, in which an object is a map from names to values. Trees that share
    nodes have to be uniform for this, since a node always equals itself. */
module CompareLaws {
  import opened JsonValue
  import opened JsonNode
  import opened Compare

  lemma {:induction false} Symmetric(a: Node, b: Node, caseSensitive: bool)
    ensures Same(a, b, caseSensitive) == Same(b, a, caseSensitive)
    decreases Size(a)
  {
    if a.payload.ArrayNode? && b.payload.ArrayNode? && |a.payload.children| == |b.payload.children| {
      forall i | 0 <= i < |a.payload.children|
        ensures Same(a.payload.children[i], b.payload.children[i], caseSensitive)
             == Same(b.payload.children[i], a.payload.children[i], caseSensitive)
      {
        Symmetric(a.payload.children[i], b.payload.children[i], caseSensitive);
      }
    }
  }

  // ----- canonical forms

  /** Values up to the order of object members; names as they are told apart. */
  datatype Canonical =
    | CNull
    | CBool(b: bool)
    | CNumber(n: real)
    | CString(s: string)
    | CArray(items: seq<Canonical>)
    | CObject(members: map<string, Canonical>)

  function Canon(v: Json, caseSensitive: bool): Canonical
    decreases v, 1
  {
    match v
    case Null => CNull
    case Bool(b) => CBool(b)
    case Number(n) => CNumber(n)
    case String(s) => CString(s)
    case Array(items) => CArray(CanonItems(items, caseSensitive))
    case Object(members) => CObject(CanonMembers(members, caseSensitive))
  }

  function CanonItems(items: seq<Json>, caseSensitive: bool): (c: seq<Canonical>)
    ensures |c| == |items| && forall i :: 0 <= i < |items| ==> c[i] == Canon(items[i], caseSensitive)
    decreases items, 0
  {
    if items == [] then [] else [Canon(items[0], caseSensitive)] + CanonItems(items[1..], caseSensitive)
  }

  /** Of members with the same name the first counts. */
  function CanonMembers(members: seq<Member>, caseSensitive: bool): (m: map<string, Canonical>)
    ensures forall i :: 0 <= i < |members| ==> FoldKey(members[i].key, caseSensitive) in m
    decreases members, 0
  {
    if members == [] then map[]
    else
      assert forall i :: 1 <= i < |members| ==> members[i] == members[1..][i - 1];
      CanonMembers(members[1..], caseSensitive)
        [FoldKey(members[0].key, caseSensitive) := Canon(members[0].value, caseSensitive)]
  }

  /** Members of one object that share a name have equal values. */
  predicate Uniform(v: Json, caseSensitive: bool)
    decreases v
  {
    match v
    case Array(items) => forall i :: 0 <= i < |items| ==> Uniform(items[i], caseSensitive)
    case Object(members) =>
      forall i :: 0 <= i < |members| ==>
        Uniform(members[i].value, caseSensitive) &&
        Canon(members[i].value, caseSensitive)
          == CanonMembers(members, caseSensitive)[FoldKey(members[i].key, caseSensitive)]
    case _ => true
  }

  /** No two members of one object share a name. */
  predicate Distinct(v: Json, caseSensitive: bool)
    decreases v
  {
    match v
    case Array(items) => forall i :: 0 <= i < |items| ==> Distinct(items[i], caseSensitive)
    case Object(members) =>
      (forall i :: 0 <= i < |members| ==> Distinct(members[i].value, caseSensitive)) &&
      (forall i, j :: 0 <= i < j < |members| ==>
        FoldKey(members[i].key, caseSensitive) != FoldKey(members[j].key, caseSensitive))
    case _ => true
  }

  lemma {:induction false} DistinctNames(members: seq<Member>, caseSensitive: bool, i: nat)
    requires forall i, j :: 0 <= i < j < |members| ==>
      FoldKey(members[i].key, caseSensitive) != FoldKey(members[j].key, caseSensitive)
    requires i < |members|
    ensures CanonMembers(members, caseSensitive)[FoldKey(members[i].key, caseSensitive)]
      == Canon(members[i].value, caseSensitive)
  {
    hide Canon, FoldKey;
    if i > 0 {
      DistinctNames(members[1..], caseSensitive, i - 1);
    }
  }

  lemma {:induction false} DistinctIsUniform(v: Json, caseSensitive: bool)
    requires Distinct(v, caseSensitive)
    ensures Uniform(v, caseSensitive)
    decreases v
  {
    hide Canon, CanonMembers, FoldKey;
    match v
    case Array(items) =>
      forall i | 0 <= i < |items| ensures Uniform(items[i], caseSensitive) {
        DistinctIsUniform(items[i], caseSensitive);
      }
    case Object(members) =>
      forall i | 0 <= i < |members|
        ensures Uniform(members[i].value, caseSensitive)
        ensures Canon(members[i].value, caseSensitive)
          == CanonMembers(members, caseSensitive)[FoldKey(members[i].key, caseSensitive)]
      {
        DistinctIsUniform(members[i].value, caseSensitive);
        DistinctNames(members, caseSensitive, i);
      }
    case _ =>
  }

  // ----- comparison and canonical forms

  function Addresses(n: Node): (s: set<nat>)
    ensures n.addr in s
    ensures n.payload.ArrayNode? || n.payload.ObjectNode? ==>
      forall i :: 0 <= i < |n.payload.children| ==> Addresses(n.payload.children[i]) <= s
    decreases n, 1
  {
    match n.payload
    case ArrayNode(children) => {n.addr} + AllAddresses(children)
    case ObjectNode(children) => {n.addr} + AllAddresses(children)
    case _ => {n.addr}
  }

  function AllAddresses(nodes: seq<Node>): (s: set<nat>)
    ensures forall i :: 0 <= i < |nodes| ==> Addresses(nodes[i]) <= s
    decreases nodes, 0
  {
    if nodes == [] then {}
    else
      assert forall i :: 1 <= i < |nodes| ==> nodes[i] == nodes[1..][i - 1];
      Addresses(nodes[0]) + AllAddresses(nodes[1..])
  }

  /** The trees share no node. */
  predicate Apart(a: Node, b: Node) {
    Addresses(a) !! Addresses(b)
  }

  /** The nodes of a tree. */
  function Nodes(n: Node): (s: set<Node>)
    ensures n in s
    ensures n.payload.ArrayNode? || n.payload.ObjectNode? ==>
      forall i :: 0 <= i < |n.payload.children| ==> Nodes(n.payload.children[i]) <= s
    decreases n, 1
  {
    match n.payload
    case ArrayNode(children) => {n} + AllNodes(children)
    case ObjectNode(children) => {n} + AllNodes(children)
    case _ => {n}
  }

  function AllNodes(nodes: seq<Node>): (s: set<Node>)
    ensures forall i :: 0 <= i < |nodes| ==> Nodes(nodes[i]) <= s
    decreases nodes, 0
  {
    if nodes == [] then {}
    else
      assert forall i :: 1 <= i < |nodes| ==> nodes[i] == nodes[1..][i - 1];
      Nodes(nodes[0]) + AllNodes(nodes[1..])
  }

  /** The trees live in one memory: what lies at one address is one node. */
  ghost predicate Coherent(a: Node, b: Node) {
    forall x, y :: x in Nodes(a) && y in Nodes(b) && x.addr == y.addr ==> x == y
  }

  lemma {:induction false} ChildAt(nodes: seq<Node>, keyed: bool, i: nat)
    requires AllWellFormed(nodes, keyed) && i < |nodes|
    ensures WellFormed(nodes[i]) && (keyed ==> nodes[i].key.Key?)
    ensures !keyed ==> Values(nodes)[i] == Value(nodes[i])
    ensures keyed ==> Members(nodes)[i] == Member(nodes[i].key.name.chars, Value(nodes[i]))
  {
    hide WellFormed, Value;
    if i > 0 {
      ChildAt(nodes[1..], keyed, i - 1);
    }
  }

  /** Looking a name up finds what the canonical form holds. */
  lemma {:induction false} FindCanon(nodes: seq<Node>, name: string, caseSensitive: bool)
    requires AllWellFormed(nodes, true)
    ensures var k, m := Find(nodes, name, caseSensitive), CanonMembers(Members(nodes), caseSensitive);
      (k < |nodes| <==> FoldKey(name, caseSensitive) in m) &&
      (k < |nodes| ==>
        WellFormed(nodes[k]) && m[FoldKey(name, caseSensitive)] == Canon(Value(nodes[k]), caseSensitive))
  {
    hide WellFormed, AllWellFormed, Value, Members, Canon, CanonMembers, FoldKey;
    if nodes == [] {
      NoMembers(caseSensitive);
    } else {
      FirstMember(nodes);
      FindCanon(nodes[1..], name, caseSensitive);
      CanonFirst(Member(nodes[0].key.name.chars, Value(nodes[0])), Members(nodes[1..]), caseSensitive);
    }
  }

  lemma NoMembers(caseSensitive: bool)
    ensures Members([]) == [] && CanonMembers([], caseSensitive) == map[]
  {
  }

  lemma FirstMember(nodes: seq<Node>)
    requires nodes != [] && AllWellFormed(nodes, true)
    ensures WellFormed(nodes[0]) && nodes[0].key.Key? && AllWellFormed(nodes[1..], true)
    ensures Members(nodes) == [Member(nodes[0].key.name.chars, Value(nodes[0]))] + Members(nodes[1..])
  {
    hide WellFormed, Value;
  }

  lemma CanonFirst(m: Member, rest: seq<Member>, caseSensitive: bool)
    ensures CanonMembers([m] + rest, caseSensitive)
         == CanonMembers(rest, caseSensitive)[FoldKey(m.key, caseSensitive) := Canon(m.value, caseSensitive)]
  {
    hide Canon, FoldKey;
    assert ([m] + rest)[1..] == rest;
  }

  /** The numbers in a tree. */
  function Numbers(n: Node): (s: set<real>)
    ensures n.payload.NumberNode? ==> n.payload.n in s
    ensures n.payload.ArrayNode? || n.payload.ObjectNode? ==>
      forall i :: 0 <= i < |n.payload.children| ==> Numbers(n.payload.children[i]) <= s
    decreases n, 1
  {
    match n.payload
    case NumberNode(x, _) => {x}
    case ArrayNode(children) => AllNumbers(children)
    case ObjectNode(children) => AllNumbers(children)
    case _ => {}
  }

  function AllNumbers(nodes: seq<Node>): (s: set<real>)
    ensures forall i :: 0 <= i < |nodes| ==> Numbers(nodes[i]) <= s
    decreases nodes, 0
  {
    if nodes == [] then {}
    else
      assert forall i :: 1 <= i < |nodes| ==> nodes[i] == nodes[1..][i - 1];
      Numbers(nodes[0]) + AllNumbers(nodes[1..])
  }

  /** Numbers of one set are equal to those of the other or further away than the tolerance. */
  ghost predicate Separated(s: set<real>, t: set<real>) {
    forall x, y :: x in s && y in t && Near(x, y) ==> x == y
  }

  /** Within the three sets, near numbers of near numbers are near. */
  ghost predicate NearTransitive(s: set<real>, t: set<real>, u: set<real>) {
    forall x, y, z :: x in s && y in t && z in u && Near(x, y) && Near(y, z) ==> Near(x, z)
  }

  ghost predicate Integral(s: set<real>) {
    forall x :: x in s ==> x == x.Floor as real
  }

  /** Integers are further apart than the tolerance. */
  lemma IntegersSeparated(s: set<real>, t: set<real>)
    requires Integral(s) && Integral(t)
    ensures Separated(s, t)
  {
    forall x, y | x in s && y in t && Near(x, y)
      ensures x == y
    {
      var d := x.Floor - y.Floor;
      assert d as real == x - y;
    }
  }

  ghost predicate Comparable(a: Node, b: Node, caseSensitive: bool)
    requires WellFormed(a) && WellFormed(b)
  {
    && Separated(Numbers(a), Numbers(b))
    && (Apart(a, b)
        || (Coherent(a, b) && Uniform(Value(a), caseSensitive) && Uniform(Value(b), caseSensitive)))
  }

  ghost predicate SameCanon(v: Json, w: Json, caseSensitive: bool) {
    Uniform(v, caseSensitive) && Uniform(w, caseSensitive) && Canon(v, caseSensitive) == Canon(w, caseSensitive)
  }

  /** Uniform trees of one canonical form always compare equal, and trees that are comparable
      compare equal only then. */
  lemma {:induction false} CompareIsCanonical(a: Node, b: Node, caseSensitive: bool)
    requires WellFormed(a) && WellFormed(b)
    ensures SameCanon(Value(a), Value(b), caseSensitive) ==> Same(a, b, caseSensitive)
    ensures Comparable(a, b, caseSensitive) ==>
      (Same(a, b, caseSensitive) <==> SameCanon(Value(a), Value(b), caseSensitive))
    decreases Size(a) + Size(b), 2
  {
    if Comparable(a, b, caseSensitive) {
      ComparableMeans(a, b, caseSensitive);
    }
    if a.addr != b.addr {
      match (a.payload, b.payload)
      case (ArrayNode(_), ArrayNode(_)) => ArraysCanonical(a, b, caseSensitive);
      case (ObjectNode(_), ObjectNode(_)) => ObjectsCanonical(a, b, caseSensitive);
      case _ =>
    }
  }

  /** Children inherit what makes trees comparable. */
  lemma ComparableChildren(a: Node, b: Node, keyed: bool, i: nat, j: nat, caseSensitive: bool)
    requires WellFormed(a) && WellFormed(b)
    requires if keyed then a.payload.ObjectNode? && b.payload.ObjectNode?
             else a.payload.ArrayNode? && b.payload.ArrayNode?
    requires i < |a.payload.children| && j < |b.payload.children|
    ensures WellFormed(a.payload.children[i]) && WellFormed(b.payload.children[j])
    ensures Comparable(a, b, caseSensitive) ==>
      Comparable(a.payload.children[i], b.payload.children[j], caseSensitive)
  {
    UniformChild(a, keyed, i, caseSensitive);
    UniformChild(b, keyed, j, caseSensitive);
    hide WellFormed, Value, Uniform, Near;
    assert Addresses(a.payload.children[i]) <= Addresses(a);
    assert Addresses(b.payload.children[j]) <= Addresses(b);
    assert Numbers(a.payload.children[i]) <= Numbers(a);
    assert Numbers(b.payload.children[j]) <= Numbers(b);
    assert Nodes(a.payload.children[i]) <= Nodes(a);
    assert Nodes(b.payload.children[j]) <= Nodes(b);
  }

  lemma UniformChild(n: Node, keyed: bool, i: nat, caseSensitive: bool)
    requires WellFormed(n) && (if keyed then n.payload.ObjectNode? else n.payload.ArrayNode?)
    requires i < |n.payload.children|
    ensures WellFormed(n.payload.children[i])
    ensures Uniform(Value(n), caseSensitive) ==> Uniform(Value(n.payload.children[i]), caseSensitive)
  {
    hide Canon, CanonMembers, FoldKey;
    ChildAt(n.payload.children, keyed, i);
    if Uniform(Value(n), caseSensitive) {
      if keyed {
        assert Uniform(Value(n).members[i].value, caseSensitive);
      } else {
        assert Uniform(Value(n).items[i], caseSensitive);
      }
    }
  }

  lemma {:induction false} ArraysCanonical(a: Node, b: Node, caseSensitive: bool)
    requires WellFormed(a) && WellFormed(b)
    requires a.addr != b.addr && a.payload.ArrayNode? && b.payload.ArrayNode?
    ensures SameCanon(Value(a), Value(b), caseSensitive) ==> Same(a, b, caseSensitive)
    ensures Comparable(a, b, caseSensitive) && Same(a, b, caseSensitive) ==>
      SameCanon(Value(a), Value(b), caseSensitive)
    decreases Size(a) + Size(b), 1
  {
    hide Comparable;
    var x, y := a.payload.children, b.payload.children;
    var v, w := Values(x), Values(y);
    if |x| == |y| {
      forall i | 0 <= i < |x|
        ensures SameCanon(v[i], w[i], caseSensitive) ==> Same(x[i], y[i], caseSensitive)
        ensures Comparable(a, b, caseSensitive) && Same(x[i], y[i], caseSensitive) ==>
          SameCanon(v[i], w[i], caseSensitive)
      {
        ComparableChildren(a, b, false, i, i, caseSensitive);
        ChildAt(x, false, i);
        ChildAt(y, false, i);
        CompareIsCanonical(x[i], y[i], caseSensitive);
      }
      ItemsCanonical(v, w, caseSensitive);
    }
  }

  lemma ItemsCanonical(v: seq<Json>, w: seq<Json>, caseSensitive: bool)
    requires |v| == |w|
    ensures (forall i :: 0 <= i < |v| ==> SameCanon(v[i], w[i], caseSensitive)) <==>
      SameCanon(Array(v), Array(w), caseSensitive)
  {
    hide CanonItems;
    var cv, cw := CanonItems(v, caseSensitive), CanonItems(w, caseSensitive);
    assert Canon(Array(v), caseSensitive) == CArray(cv) && Canon(Array(w), caseSensitive) == CArray(cw);
    if SameCanon(Array(v), Array(w), caseSensitive) {
      forall i | 0 <= i < |v| ensures SameCanon(v[i], w[i], caseSensitive) {
        assert cv[i] == cw[i];
      }
    }
    if forall i :: 0 <= i < |v| ==> SameCanon(v[i], w[i], caseSensitive) {
      assert cv == cw;
    }
  }

  /** The `i`-th member has an equal value under its name in the other object. */
  ghost predicate Covered(members: seq<Member>, i: nat, others: seq<Member>, caseSensitive: bool)
    requires i < |members|
  {
    var name, m := FoldKey(members[i].key, caseSensitive), CanonMembers(others, caseSensitive);
    Uniform(members[i].value, caseSensitive) && name in m && m[name] == Canon(members[i].value, caseSensitive)
  }

  ghost predicate AllCovered(members: seq<Member>, others: seq<Member>, caseSensitive: bool) {
    forall i :: 0 <= i < |members| ==> Covered(members, i, others, caseSensitive)
  }

  lemma {:induction false} ObjectsCanonical(a: Node, b: Node, caseSensitive: bool)
    requires WellFormed(a) && WellFormed(b)
    requires a.addr != b.addr && a.payload.ObjectNode? && b.payload.ObjectNode?
    ensures SameCanon(Value(a), Value(b), caseSensitive) ==> Same(a, b, caseSensitive)
    ensures Comparable(a, b, caseSensitive) && Same(a, b, caseSensitive) ==>
      SameCanon(Value(a), Value(b), caseSensitive)
    decreases Size(a) + Size(b), 1
  {
    hide Canon, CanonMembers, Comparable, Uniform;
    var v, w := Members(a.payload.children), Members(b.payload.children);
    ComparableSymmetric(a, b, caseSensitive);
    DirectionCanonical(a, b, caseSensitive);
    DirectionCanonical(b, a, caseSensitive);
    MembersCanonical(v, w, caseSensitive);
  }

  lemma ComparableMeans(a: Node, b: Node, caseSensitive: bool)
    requires WellFormed(a) && WellFormed(b) && Comparable(a, b, caseSensitive)
    ensures a.addr == b.addr ==> a == b && Uniform(Value(a), caseSensitive)
  {
    assert a.addr in Addresses(a) && b.addr in Addresses(b);
    assert a in Nodes(a) && b in Nodes(b);
  }

  lemma ComparableSymmetric(a: Node, b: Node, caseSensitive: bool)
    requires WellFormed(a) && WellFormed(b)
    ensures Comparable(a, b, caseSensitive) ==> Comparable(b, a, caseSensitive)
  {
  }

  /** One direction of the comparison of two objects. */
  lemma {:induction false} DirectionCanonical(a: Node, b: Node, caseSensitive: bool)
    requires a.payload.ObjectNode? && b.payload.ObjectNode?
    requires WellFormed(a) && WellFormed(b)
    ensures Comparable(a, b, caseSensitive) && AllMatch(a, b, caseSensitive) ==>
      AllCovered(Members(a.payload.children), Members(b.payload.children), caseSensitive)
    ensures Uniform(Value(b), caseSensitive) ==>
      AllCovered(Members(a.payload.children), Members(b.payload.children), caseSensitive) ==>
      AllMatch(a, b, caseSensitive)
    decreases Size(a) + Size(b), 0
  {
    hide Canon, CanonMembers, Comparable, Same;
    var x, y := a.payload.children, b.payload.children;
    forall i | 0 <= i < |x|
      ensures Comparable(a, b, caseSensitive) && Matches(a, i, b, caseSensitive) ==>
        Covered(Members(x), i, Members(y), caseSensitive)
      ensures Uniform(Value(b), caseSensitive) && Covered(Members(x), i, Members(y), caseSensitive) ==>
        Matches(a, i, b, caseSensitive)
    {
      ChildAt(x, true, i);
      var name := x[i].key.name.chars;
      var k := Find(y, name, caseSensitive);
      FindCanon(y, name, caseSensitive);
      if k < |y| {
        ComparableChildren(a, b, true, i, k, caseSensitive);
        ChildAt(y, true, k);
        CompareIsCanonical(x[i], y[k], caseSensitive);
      }
    }
  }

  lemma MembersCanonical(v: seq<Member>, w: seq<Member>, caseSensitive: bool)
    ensures AllCovered(v, w, caseSensitive) && AllCovered(w, v, caseSensitive) <==>
      SameCanon(Object(v), Object(w), caseSensitive)
  {
    hide FoldKey;
    var mv, mw := CanonMembers(v, caseSensitive), CanonMembers(w, caseSensitive);
    if AllCovered(v, w, caseSensitive) && AllCovered(w, v, caseSensitive) {
      SubCanon(v, w, mv, mw, caseSensitive);
      SubCanon(w, v, mw, mv, caseSensitive);
      assert mv == mw;
      CoveredIsUniform(v, w, caseSensitive);
      CoveredIsUniform(w, v, caseSensitive);
    } else if SameCanon(Object(v), Object(w), caseSensitive) {
      CoveredIsUniform(v, w, caseSensitive);
      CoveredIsUniform(w, v, caseSensitive);
    }
  }

  lemma CoveredIsUniform(v: seq<Member>, w: seq<Member>, caseSensitive: bool)
    requires CanonMembers(v, caseSensitive) == CanonMembers(w, caseSensitive)
    ensures AllCovered(v, w, caseSensitive) <==> Uniform(Object(v), caseSensitive)
  {
    hide FoldKey, Canon;
    var m := CanonMembers(v, caseSensitive);
    if AllCovered(v, w, caseSensitive) {
      forall i | 0 <= i < |v|
        ensures Uniform(v[i].value, caseSensitive)
        ensures Canon(v[i].value, caseSensitive) == m[FoldKey(v[i].key, caseSensitive)]
      {
        assert Covered(v, i, w, caseSensitive);
      }
      assert Uniform(Object(v), caseSensitive);
    }
    if Uniform(Object(v), caseSensitive) {
      forall i | 0 <= i < |v| ensures Covered(v, i, w, caseSensitive) {
        assert FoldKey(v[i].key, caseSensitive) in m;
      }
    }
  }

  /** Every name of `v` is one of `w`, with the same value. */
  lemma SubCanon(v: seq<Member>, w: seq<Member>, mv: map<string, Canonical>, mw: map<string, Canonical>,
                 caseSensitive: bool)
    requires mv == CanonMembers(v, caseSensitive) && mw == CanonMembers(w, caseSensitive)
    requires AllCovered(v, w, caseSensitive)
    ensures mv.Keys <= mw.Keys && forall name :: name in mv ==> mw[name] == mv[name]
  {
    hide FoldKey, Canon;
    forall name | name in mv ensures name in mw && mw[name] == mv[name] {
      var i := FirstOfName(v, name, caseSensitive);
      assert Covered(v, i, w, caseSensitive);
    }
  }

  lemma {:induction false} FirstOfName(v: seq<Member>, name: string, caseSensitive: bool) returns (i: nat)
    requires name in CanonMembers(v, caseSensitive)
    ensures i < |v| && FoldKey(v[i].key, caseSensitive) == name
    ensures CanonMembers(v, caseSensitive)[name] == Canon(v[i].value, caseSensitive)
  {
    hide FoldKey, Canon;
    if FoldKey(v[0].key, caseSensitive) == name {
      i := 0;
    } else {
      i := FirstOfName(v[1..], name, caseSensitive);
      i := i + 1;
    }
  }

  /** On uniform trees whose numbers are separated comparison is equality of canonical forms,
      hence reflexive, symmetric and transitive; the trees may share nodes or be the same. */
  lemma CompareIsEquivalence(a: Node, b: Node, c: Node, caseSensitive: bool)
    requires WellFormed(a) && WellFormed(b) && WellFormed(c)
    requires Comparable(a, b, caseSensitive) && Comparable(b, c, caseSensitive) && Comparable(a, c, caseSensitive)
    requires Uniform(Value(a), caseSensitive) && Uniform(Value(b), caseSensitive)
    ensures Value(a) == Value(b) ==> Same(a, b, caseSensitive)
    ensures Same(a, b, caseSensitive) == Same(b, a, caseSensitive)
    ensures Same(a, b, caseSensitive) && Same(b, c, caseSensitive) ==> Same(a, c, caseSensitive)
  {
    hide Uniform, Canon, Comparable, Same;
    CompareIsCanonical(a, b, caseSensitive);
    CompareIsCanonical(b, c, caseSensitive);
    CompareIsCanonical(a, c, caseSensitive);
    Symmetric(a, b, caseSensitive);
  }

  // ----- what the tolerance costs

  /** Numbers that are near to near numbers need not be near. */
  lemma ToleranceIsIntransitive()
    ensures var a, b, c := NumberAt(1, 0.0), NumberAt(2, 0.0000000000000001), NumberAt(3, 0.0000000000000002);
      Same(a, b, true) && Same(b, c, true) && !Same(a, c, true)
  {
  }

  function NumberAt(addr: nat, x: real): Node {
    Node(addr, NumberNode(x, Saturated(x)), NoKey)
  }

  /** An object with the members `"x": true` and `"x": null`. */
  function TwinsAt(addr: nat): Node {
    Node(addr, ObjectNode([Node(addr + 1, TrueNode, Key(Block(addr + 2, "x"))),
                           Node(addr + 3, NullNode, Key(Block(addr + 4, "x")))]), NoKey)
  }

  /** Where names repeat, a tree need not compare equal to a copy: looking a name up
      finds its first member only. */
  lemma RepeatedNamesDiffer()
    ensures var a, b := TwinsAt(1), TwinsAt(10);
      WellFormed(a) && WellFormed(b) && Value(a) == Value(b) && !Same(a, b, true)
  {
    var a, b := TwinsAt(1), TwinsAt(10);
    assert a.payload.children[1..][1..] == [] && b.payload.children[1..][1..] == [];
    assert Find(b.payload.children, "x", true) == 0;
    assert !Matches(a, 1, b, true);
  }

  lemma {:induction false} FindFold(nodes: seq<Node>, name: string, other: string, caseSensitive: bool)
    requires FoldKey(name, caseSensitive) == FoldKey(other, caseSensitive)
    ensures Find(nodes, name, caseSensitive) == Find(nodes, other, caseSensitive)
  {
    hide FoldKey;
    if nodes != [] {
      FindFold(nodes[1..], name, other, caseSensitive);
    }
  }

  /** Comparison is transitive on all trees, with repeated names too, within whose numbers
      nearness is transitive. */
  lemma {:induction false} Transitive(a: Node, b: Node, c: Node, caseSensitive: bool)
    requires Coherent(a, b) && Coherent(b, c) && NearTransitive(Numbers(a), Numbers(b), Numbers(c))
    requires Same(a, b, caseSensitive) && Same(b, c, caseSensitive)
    ensures Same(a, c, caseSensitive)
    decreases Size(a) + Size(b) + Size(c), 1
  {
    assert a in Nodes(a) && b in Nodes(b) && c in Nodes(c);
    if a.addr != b.addr && b.addr != c.addr && a.addr != c.addr {
      if a.payload.ArrayNode? {
        var x, y, z := a.payload.children, b.payload.children, c.payload.children;
        forall i | 0 <= i < |x|
          ensures Same(x[i], z[i], caseSensitive)
        {
          ChildrenInherit(a, b, c, i, i, i);
          Transitive(x[i], y[i], z[i], caseSensitive);
        }
      } else if a.payload.ObjectNode? {
        DirectionTransitive(a, b, c, caseSensitive);
        Reversed(a, b, c);
        DirectionTransitive(c, b, a, caseSensitive);
      }
    }
  }

  lemma Reversed(a: Node, b: Node, c: Node)
    requires Coherent(a, b) && Coherent(b, c) && NearTransitive(Numbers(a), Numbers(b), Numbers(c))
    ensures Coherent(c, b) && Coherent(b, a) && NearTransitive(Numbers(c), Numbers(b), Numbers(a))
  {
    forall x, y, z | x in Numbers(c) && y in Numbers(b) && z in Numbers(a) && Near(x, y) && Near(y, z)
      ensures Near(x, z)
    {
      assert Near(z, y) && Near(y, x);
    }
  }

  lemma ChildrenInherit(a: Node, b: Node, c: Node, i: nat, j: nat, k: nat)
    requires Coherent(a, b) && Coherent(b, c) && NearTransitive(Numbers(a), Numbers(b), Numbers(c))
    requires a.payload.ArrayNode? || a.payload.ObjectNode?
    requires b.payload.ArrayNode? || b.payload.ObjectNode?
    requires c.payload.ArrayNode? || c.payload.ObjectNode?
    requires i < |a.payload.children| && j < |b.payload.children| && k < |c.payload.children|
    ensures var x, y, z := a.payload.children[i], b.payload.children[j], c.payload.children[k];
      Coherent(x, y) && Coherent(y, z) && NearTransitive(Numbers(x), Numbers(y), Numbers(z))
  {
    hide Near;
    var x, y, z := a.payload.children[i], b.payload.children[j], c.payload.children[k];
    assert Nodes(x) <= Nodes(a) && Nodes(y) <= Nodes(b) && Nodes(z) <= Nodes(c);
    assert Numbers(x) <= Numbers(a) && Numbers(y) <= Numbers(b) && Numbers(z) <= Numbers(c);
  }

  /** One direction: a member's match has a match, which is the member's. */
  lemma {:induction false} DirectionTransitive(a: Node, b: Node, c: Node, caseSensitive: bool)
    requires a.payload.ObjectNode? && b.payload.ObjectNode? && c.payload.ObjectNode?
    requires Coherent(a, b) && Coherent(b, c) && NearTransitive(Numbers(a), Numbers(b), Numbers(c))
    requires AllMatch(a, b, caseSensitive) && AllMatch(b, c, caseSensitive)
    ensures AllMatch(a, c, caseSensitive)
    decreases Size(a) + Size(b) + Size(c), 0
  {
    hide Same, Coherent, NearTransitive, FoldKey;
    var x, y, z := a.payload.children, b.payload.children, c.payload.children;
    forall i | 0 <= i < |x|
      ensures Matches(a, i, c, caseSensitive)
    {
      assert Matches(a, i, b, caseSensitive);
      var name := x[i].key.name.chars;
      var k := Find(y, name, caseSensitive);
      assert Matches(b, k, c, caseSensitive);
      FindFold(z, name, y[k].key.name.chars, caseSensitive);
      var l := Find(z, name, caseSensitive);
      ChildrenInherit(a, b, c, i, k, l);
      Transitive(x[i], y[k], z[l], caseSensitive);
    }
  }

  ghost predicate TransitiveOn(s: set<real>, caseSensitive: bool) {
    forall a, b, c ::
      && Numbers(a) <= s && Numbers(b) <= s && Numbers(c) <= s && Coherent(a, b) && Coherent(b, c)
      && Same(a, b, caseSensitive) && Same(b, c, caseSensitive)
      ==> Same(a, c, caseSensitive)
  }

  /** Comparison is transitive on the trees with numbers from a set exactly when nearness is
      transitive on the set. */
  lemma TransitiveExactly(s: set<real>, caseSensitive: bool)
    ensures TransitiveOn(s, caseSensitive) <==> NearTransitive(s, s, s)
  {
    if NearTransitive(s, s, s) {
      forall a, b, c |
        && Numbers(a) <= s && Numbers(b) <= s && Numbers(c) <= s && Coherent(a, b) && Coherent(b, c)
        && Same(a, b, caseSensitive) && Same(b, c, caseSensitive)
        ensures Same(a, c, caseSensitive)
      {
        Transitive(a, b, c, caseSensitive);
      }
    }
    if TransitiveOn(s, caseSensitive) {
      forall x, y, z | x in s && y in s && z in s && Near(x, y) && Near(y, z)
        ensures Near(x, z)
      {
        var a, b, c := NumberAt(1, x), NumberAt(2, y), NumberAt(3, z);
        assert Same(a, b, caseSensitive) && Same(b, c, caseSensitive);
        assert Same(a, c, caseSensitive);
      }
    }
  }

  ghost predicate DecidesOn(s: set<real>, caseSensitive: bool) {
    forall a, b ::
      WellFormed(a) && WellFormed(b) && Apart(a, b) && Numbers(a) <= s && Numbers(b) <= s ==>
      (Same(a, b, caseSensitive) <==> SameCanon(Value(a), Value(b), caseSensitive))
  }

  /** Comparison decides equality of canonical forms, on the trees with numbers from a set,
      exactly when different numbers of the set are further apart than the tolerance. */
  lemma DecidesExactly(s: set<real>, caseSensitive: bool)
    ensures DecidesOn(s, caseSensitive) <==> Separated(s, s)
  {
    if Separated(s, s) {
      forall a, b | WellFormed(a) && WellFormed(b) && Apart(a, b) && Numbers(a) <= s && Numbers(b) <= s
        ensures Same(a, b, caseSensitive) <==> SameCanon(Value(a), Value(b), caseSensitive)
      {
        CompareIsCanonical(a, b, caseSensitive);
      }
    }
    if DecidesOn(s, caseSensitive) {
      forall x, y | x in s && y in s && Near(x, y)
        ensures x == y
      {
        var a, b := NumberAt(1, x), NumberAt(2, y);
        assert Same(a, b, caseSensitive);
        assert SameCanon(Value(a), Value(b), caseSensitive);
      }
    }
  }
}
