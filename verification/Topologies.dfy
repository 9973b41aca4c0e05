/** Topology definitions: validation and the canonical form that makes insertion order irrelevant. */
module Topologies {
  import opened Collections
  import opened Resources
  import opened Sorting

  const MAX_NODES := 65536
  const MAX_EDGES := 262144
  const MAX_WEIGHT := 1000000
  const U64_LIMIT: nat := 0x1_0000_0000_0000_0000

  datatype EdgeEvidence = Proven | Unknown | Refuted
  datatype Completeness = Complete | Partial | Undetermined

  datatype NodeSpec = NodeSpec(
    id: ResourceId, containable: bool, weight: nat, protectedObligation: bool, completeness: Completeness)
  datatype EdgeSpec = EdgeSpec(from: ResourceId, to: ResourceId, evidence: EdgeEvidence, generation: nat)
  datatype TopologySpec = TopologySpec(generation: nat, nodes: seq<NodeSpec>, edges: seq<EdgeSpec>)

  datatype Edge = Edge(from: nat, to: nat, evidence: EdgeEvidence, generation: nat)

  datatype Topology = Topology(generation: nat, nodes: seq<NodeSpec>, edges: seq<Edge>)
  {
    ghost predicate Valid() {
      && 0 < generation < U64_LIMIT
      && 0 < |nodes| <= MAX_NODES && |edges| <= MAX_EDGES
      && (forall i :: 0 <= i < |nodes| ==> NodeOk(nodes[i]))
      && StrictlySortedBy(NodeLess, nodes)
      && (forall e :: 0 <= e < |edges| ==> EdgeOk(edges[e], |nodes|))
      && StrictlySortedBy(EdgeLess, edges)
    }
  }

  predicate NodeOk(node: NodeSpec) {
    && IsValidResourceId(node.id) && 0 < node.weight <= MAX_WEIGHT
    && !(node.protectedObligation && node.containable)
  }

  predicate EdgeOk(edge: Edge, n: nat) {
    edge.from < n && edge.to < n && edge.from != edge.to && 0 < edge.generation < U64_LIMIT
  }

  predicate NodeLess(a: NodeSpec, b: NodeSpec) { IdLess(a.id, b.id) }

  predicate EdgeLess(a: Edge, b: Edge) {
    if a.from != b.from then a.from < b.from else a.to < b.to
  }

  lemma NodeOrder()
    ensures StrictWeak(NodeLess)
  {
    IdOrder();
  }

  lemma EdgeOrder()
    ensures StrictWeak(EdgeLess)
  {
  }

  /** Position of an identity among the nodes. */
  function Find(nodes: seq<NodeSpec>, id: ResourceId): (r: Option<nat>)
    ensures r.Some? ==> r.value < |nodes| && nodes[r.value].id == id
    ensures r.None? <==> forall i :: 0 <= i < |nodes| ==> nodes[i].id != id
  {
    if nodes == [] then None
    else if nodes[|nodes| - 1].id == id then Some(|nodes| - 1)
    else Find(nodes[..|nodes| - 1], id)
  }

  /** In a sorted node list the position is the only one. */
  lemma FindUnique(nodes: seq<NodeSpec>, i: nat)
    requires StrictlySortedBy(NodeLess, nodes) && i < |nodes|
    ensures Find(nodes, nodes[i].id) == Some(i)
  {
    IdOrder();
    var r := Find(nodes, nodes[i].id);
    SameIdNotLess(nodes[r.value], nodes[i]);
    SameIdNotLess(nodes[i], nodes[r.value]);
  }

  /** The dense form of an edge; endpoints that are not nodes have no dense form. */
  function Resolve(nodes: seq<NodeSpec>, edge: EdgeSpec): Option<Edge> {
    var from, to := Find(nodes, edge.from), Find(nodes, edge.to);
    if from.Some? && to.Some? then Some(Edge(from.value, to.value, edge.evidence, edge.generation)) else None
  }

  predicate EdgeSpecOk(nodes: seq<NodeSpec>, edge: EdgeSpec) {
    Resolve(nodes, edge).Some? && Find(nodes, edge.from) != Find(nodes, edge.to) && edge.generation != 0
  }

  function ResolveAll(nodes: seq<NodeSpec>, edges: seq<EdgeSpec>): (r: seq<Edge>)
    requires forall e :: 0 <= e < |edges| ==> EdgeSpecOk(nodes, edges[e])
    ensures |r| == |edges| && forall e :: 0 <= e < |edges| ==> Some(r[e]) == Resolve(nodes, edges[e])
  {
    assert forall e :: 0 <= e < |edges| ==> EdgeSpecOk(nodes, edges[e]) && Resolve(nodes, edges[e]).Some?;
    seq(|edges|, e requires 0 <= e < |edges| => assert EdgeSpecOk(nodes, edges[e]); Resolve(nodes, edges[e]).value)
  }

  datatype BuildError =
    ZeroGeneration | TooManyNodes | TooManyEdges | NoNodes | BadNodeId | DuplicateNode | WeightOutOfRange
    | ProtectedContainable | UnknownEndpoint | SelfLoop | ZeroEdgeGeneration | DuplicateEdge

  datatype BuildResult = Built(topology: Topology) | Refused(error: BuildError)

  /** Values of a spec are unsigned 64-bit words. */
  ghost predicate SpecInRange(spec: TopologySpec) {
    spec.generation < U64_LIMIT && forall e :: 0 <= e < |spec.edges| ==> spec.edges[e].generation < U64_LIMIT
  }

  /** The conditions under which a definition is accepted; none depends on insertion order. */
  ghost predicate Acceptable(spec: TopologySpec) {
    && spec.generation != 0 && 0 < |spec.nodes| <= MAX_NODES && |spec.edges| <= MAX_EDGES
    && (forall i :: 0 <= i < |spec.nodes| ==> NodeOk(spec.nodes[i]))
    && Separated(NodeLess, spec.nodes)
    && (forall e :: 0 <= e < |spec.edges| ==> EdgeSpecOk(SortBy(NodeLess, spec.nodes), spec.edges[e]))
    && Separated(EdgeLess, ResolveAll(SortBy(NodeLess, spec.nodes), spec.edges))
  }

  /** The one topology an acceptable definition denotes. */
  ghost function Canonical(spec: TopologySpec): Topology
    requires Acceptable(spec)
  {
    var nodes := SortBy(NodeLess, spec.nodes);
    Topology(spec.generation, nodes, SortBy(EdgeLess, ResolveAll(nodes, spec.edges)))
  }

  /** Validates and materialises a definition. */
  predicate Known(nodes: seq<NodeSpec>, id: ResourceId) {
    exists n <- nodes :: n.id == id
  }

  /** The condition a refusal names. */
  ghost predicate Violated(spec: TopologySpec, error: BuildError) {
    match error
    case ZeroGeneration => spec.generation == 0
    case TooManyNodes => |spec.nodes| > MAX_NODES
    case TooManyEdges => |spec.edges| > MAX_EDGES
    case NoNodes => spec.nodes == []
    case BadNodeId => exists n <- spec.nodes :: !IsValidResourceId(n.id)
    case DuplicateNode => exists i, j :: 0 <= i < j < |spec.nodes| && spec.nodes[i].id == spec.nodes[j].id
    case WeightOutOfRange => exists n <- spec.nodes :: n.weight == 0 || n.weight > MAX_WEIGHT
    case ProtectedContainable => exists n <- spec.nodes :: n.protectedObligation && n.containable
    case UnknownEndpoint => exists e <- spec.edges :: !Known(spec.nodes, e.from) || !Known(spec.nodes, e.to)
    case SelfLoop => exists e <- spec.edges :: e.from == e.to
    case ZeroEdgeGeneration => exists e <- spec.edges :: e.generation == 0
    case DuplicateEdge =>
      exists i, j :: 0 <= i < j < |spec.edges| && spec.edges[i].from == spec.edges[j].from && spec.edges[i].to == spec.edges[j].to
  }

  lemma RepeatedNode(spec: TopologySpec)
    requires !Separated(NodeLess, spec.nodes)
    ensures Violated(spec, DuplicateNode)
  {
    IdOrder();
    var nodes := spec.nodes;
    var i, j :| 0 <= i < j < |nodes| && !NodeLess(nodes[i], nodes[j]) && !NodeLess(nodes[j], nodes[i]);
    assert nodes[i].id == nodes[j].id;
  }

  lemma RepeatedEdge(spec: TopologySpec, nodes: seq<NodeSpec>)
    requires forall e :: 0 <= e < |spec.edges| ==> EdgeSpecOk(nodes, spec.edges[e])
    requires !Separated(EdgeLess, ResolveAll(nodes, spec.edges))
    ensures Violated(spec, DuplicateEdge)
  {
    var raw := ResolveAll(nodes, spec.edges);
    var i, j :| 0 <= i < j < |raw| && !EdgeLess(raw[i], raw[j]) && !EdgeLess(raw[j], raw[i]);
    assert Some(raw[i]) == Resolve(nodes, spec.edges[i]) && Some(raw[j]) == Resolve(nodes, spec.edges[j]);
    assert spec.edges[i].from == spec.edges[j].from && spec.edges[i].to == spec.edges[j].to;
  }

  lemma FoundIsKnown(given: seq<NodeSpec>, nodes: seq<NodeSpec>, id: ResourceId)
    requires forall x :: x in given <==> x in nodes
    ensures Find(nodes, id).Some? <==> Known(given, id)
  {
    if n :| n in given && n.id == id {
      var i :| 0 <= i < |nodes| && nodes[i] == n;
    }
    if Find(nodes, id).Some? { assert nodes[Find(nodes, id).value] in given; }
  }

  method Build(spec: TopologySpec) returns (r: BuildResult)
    requires SpecInRange(spec)
    ensures r.Built? <==> Acceptable(spec)
    ensures r.Built? ==> r.topology == Canonical(spec) && r.topology.Valid()
    ensures r.Refused? ==> Violated(spec, r.error)
  {
    if spec.generation == 0 { return Refused(ZeroGeneration); }
    if |spec.nodes| > MAX_NODES { return Refused(TooManyNodes); }
    if |spec.edges| > MAX_EDGES { return Refused(TooManyEdges); }
    if spec.nodes == [] { return Refused(NoNodes); }
    NodeOrder();
    SortBySorted(NodeLess, spec.nodes);
    var nodes := SortBy(NodeLess, spec.nodes);
    var nodeError := CheckNodes(spec, nodes);
    if nodeError.Some? { return Refused(nodeError.value); }
    SameMembers(spec.nodes, nodes);
    var edgeError, raw := ResolveEdges(nodes, spec.edges, spec);
    if edgeError.Some? { return Refused(edgeError.value); }
    EdgeOrder();
    SortBySorted(EdgeLess, raw);
    var edges := SortBy(EdgeLess, raw);
    var repeated := HasDuplicateEdge(edges);
    SeparatedIffStrict(EdgeLess, raw);
    if repeated {
      RepeatedEdge(spec, nodes);
      return Refused(DuplicateEdge);
    }
    CanonicalValid(spec);
    r := Built(Topology(spec.generation, nodes, edges));
  }

  lemma SeparatedIffStrict<T(!new)>(less: (T, T) -> bool, s: seq<T>)
    requires StrictWeak(less)
    ensures Separated(less, s) <==> StrictlySortedBy(less, SortBy(less, s))
  {
    SortBySorted(less, s);
    SortedAndSeparated(less, SortBy(less, s));
    if Separated(less, s) { SeparatedPermuted(less, s, SortBy(less, s)); }
    if Separated(less, SortBy(less, s)) { SeparatedPermuted(less, SortBy(less, s), s); }
  }

  lemma SortedNodes(given: seq<NodeSpec>)
    ensures var nodes := SortBy(NodeLess, given);
      SortedBy(NodeLess, nodes) && (forall x :: x in given <==> x in nodes)
      && (Separated(NodeLess, given) <==> StrictlySortedBy(NodeLess, nodes))
  {
    NodeOrder();
    SortBySorted(NodeLess, given);
    SeparatedIffStrict(NodeLess, given);
    SameMembers(given, SortBy(NodeLess, given));
  }

  lemma RepeatedId(nodes: seq<NodeSpec>, i: nat)
    requires 0 < i < |nodes| && nodes[i - 1].id == nodes[i].id
    ensures !StrictlySortedBy(NodeLess, nodes)
  {
    SameIdNotLess(nodes[i - 1], nodes[i]);
  }

  /** Checks the sorted nodes: canonical identity, no neighbour with the same identity, weight, role. */
  method CheckNodes(ghost spec: TopologySpec, nodes: seq<NodeSpec>) returns (error: Option<BuildError>)
    requires nodes == SortBy(NodeLess, spec.nodes)
    ensures error.None? <==> (forall i :: 0 <= i < |spec.nodes| ==> NodeOk(spec.nodes[i])) && Separated(NodeLess, spec.nodes)
    ensures error.Some? ==> Violated(spec, error.value)
  {
    ghost var given := spec.nodes;
    hide SortBy, StrictWeak, SortedBy, Separated, IsValidResourceId, NodeLess, StrictlySortedBy;
    SortedNodes(given);
    var i := 0;
    while i < |nodes|
      invariant i <= |nodes| && forall j :: 0 <= j < i ==> NodeOk(nodes[j])
      invariant forall j :: 0 < j < i ==> nodes[j - 1].id != nodes[j].id
    {
      var node := nodes[i];
      assert node in nodes;
      if !IsValidResourceId(node.id) { return Some(BadNodeId); }
      if i > 0 && nodes[i - 1].id == node.id {
        RepeatedId(nodes, i);
        RepeatedNode(spec);
        return Some(DuplicateNode);
      }
      if node.weight == 0 || node.weight > MAX_WEIGHT { return Some(WeightOutOfRange); }
      if node.protectedObligation && node.containable { return Some(ProtectedContainable); }
      i := i + 1;
    }
    NeighbourIds(nodes);
    forall k | 0 <= k < |given| ensures NodeOk(given[k]) { assert given[k] in nodes; }
    error := None;
  }

  lemma SameIdNotLess(a: NodeSpec, b: NodeSpec)
    requires a.id == b.id
    ensures !NodeLess(a, b)
  {
    IdOrder();
  }

  lemma SameMembers<T>(a: seq<T>, b: seq<T>)
    requires multiset(a) == multiset(b)
    ensures forall x :: x in a <==> x in b
  {
    assert forall x :: x in a <==> x in multiset(a);
  }

  lemma NeighbourIds(nodes: seq<NodeSpec>)
    requires SortedBy(NodeLess, nodes) && forall j :: 0 < j < |nodes| ==> nodes[j - 1].id != nodes[j].id
    ensures StrictlySortedBy(NodeLess, nodes)
  {
    IdOrder();
    forall i, j | 0 <= i < j < |nodes| ensures NodeLess(nodes[i], nodes[j]) {
      assert !NodeLess(nodes[j - 1], nodes[i]) || i == j - 1;
      assert !NodeLess(nodes[j], nodes[j - 1]);
    }
  }

  method ResolveEdges(nodes: seq<NodeSpec>, edges: seq<EdgeSpec>, ghost spec: TopologySpec)
    returns (error: Option<BuildError>, raw: seq<Edge>)
    requires edges == spec.edges && forall x :: x in spec.nodes <==> x in nodes
    ensures error.Some? ==> Violated(spec, error.value)
    ensures error.None? <==> forall e :: 0 <= e < |edges| ==> EdgeSpecOk(nodes, edges[e])
    ensures error.None? ==> raw == ResolveAll(nodes, edges)
  {
    raw := [];
    for e := 0 to |edges|
      invariant forall k :: 0 <= k < e ==> EdgeSpecOk(nodes, edges[k])
      invariant raw == ResolveAll(nodes, edges[..e])
    {
      var from, to := Find(nodes, edges[e].from), Find(nodes, edges[e].to);
      assert edges[e] in spec.edges;
      FoundIsKnown(spec.nodes, nodes, edges[e].from);
      FoundIsKnown(spec.nodes, nodes, edges[e].to);
      if from.None? || to.None? { return Some(UnknownEndpoint), []; }
      if from.value == to.value { return Some(SelfLoop), []; }
      if edges[e].generation == 0 { return Some(ZeroEdgeGeneration), []; }
      assert edges[..e + 1][..e] == edges[..e];
      raw := raw + [Edge(from.value, to.value, edges[e].evidence, edges[e].generation)];
    }
    assert edges[..|edges|] == edges;
    error := None;
  }

  method HasDuplicateEdge(edges: seq<Edge>) returns (repeated: bool)
    requires SortedBy(EdgeLess, edges)
    ensures repeated <==> !StrictlySortedBy(EdgeLess, edges)
  {
    var i := 1;
    while i < |edges|
      invariant forall j :: 0 < j < i && j < |edges| ==> EdgeLess(edges[j - 1], edges[j])
    {
      assert !EdgeLess(edges[i], edges[i - 1]);
      if edges[i].from == edges[i - 1].from && edges[i].to == edges[i - 1].to {
        assert !EdgeLess(edges[i - 1], edges[i]);
        return true;
      }
      i := i + 1;
    }
    forall i, j | 0 <= i < j < |edges| ensures EdgeLess(edges[i], edges[j]) {
      assert !EdgeLess(edges[j - 1], edges[i]) || i == j - 1;
      assert EdgeLess(edges[j - 1], edges[j]);
    }
    repeated := false;
  }

  lemma CanonicalValid(spec: TopologySpec)
    requires SpecInRange(spec) && Acceptable(spec)
    ensures Canonical(spec).Valid()
  {
    hide NodeOk, SortBy, EdgeSpecOk, EdgeLess, NodeLess, StrictlySortedBy, Separated;
    var nodes := SortBy(NodeLess, spec.nodes);
    NodesCanonical(spec.nodes);
    EdgesCanonical(nodes, spec.edges);
  }

  lemma NodesCanonical(given: seq<NodeSpec>)
    requires Separated(NodeLess, given) && forall i :: 0 <= i < |given| ==> NodeOk(given[i])
    ensures var nodes := SortBy(NodeLess, given);
      |nodes| == |given| && StrictlySortedBy(NodeLess, nodes) && forall i :: 0 <= i < |nodes| ==> NodeOk(nodes[i])
  {
    hide NodeOk;
    NodeOrder();
    var nodes := SortBy(NodeLess, given);
    SortBySorted(NodeLess, given);
    SeparatedIffStrict(NodeLess, given);
    SameMembers(given, nodes);
    assert |nodes| == |multiset(nodes)| == |given|;
    forall i | 0 <= i < |nodes| ensures NodeOk(nodes[i]) { assert nodes[i] in given; }
  }

  lemma EdgesCanonical(nodes: seq<NodeSpec>, given: seq<EdgeSpec>)
    requires forall e :: 0 <= e < |given| ==> EdgeSpecOk(nodes, given[e]) && given[e].generation < U64_LIMIT
    requires Separated(EdgeLess, ResolveAll(nodes, given))
    ensures var edges := SortBy(EdgeLess, ResolveAll(nodes, given));
      |edges| == |given| && StrictlySortedBy(EdgeLess, edges) && forall e :: 0 <= e < |edges| ==> EdgeOk(edges[e], |nodes|)
  {
    EdgeOrder();
    var raw := ResolveAll(nodes, given);
    var edges := SortBy(EdgeLess, raw);
    SortBySorted(EdgeLess, raw);
    SeparatedIffStrict(EdgeLess, raw);
    SameMembers(raw, edges);
    assert |edges| == |multiset(edges)| == |raw|;
    hide SortBy, EdgeLess, Separated, SortedBy;
    forall e | 0 <= e < |edges| ensures EdgeOk(edges[e], |nodes|) {
      assert edges[e] in raw;
      var k :| 0 <= k < |raw| && raw[k] == edges[e];
      assert EdgeSpecOk(nodes, given[k]);
    }
  }

  // ---------------------------------------------------------------------
  // Insertion order
  // ---------------------------------------------------------------------

  ghost predicate Reordered(a: TopologySpec, b: TopologySpec) {
    a.generation == b.generation && multiset(a.nodes) == multiset(b.nodes) && multiset(a.edges) == multiset(b.edges)
  }

  function Without<T>(s: seq<T>, k: nat): seq<T>
    requires k < |s|
  {
    s[..k] + s[k + 1..]
  }

  lemma WithoutAt<T>(s: seq<T>, k: nat)
    requires k < |s|
    ensures multiset(Without(s, k)) == multiset(s) - multiset{s[k]} && |Without(s, k)| == |s| - 1
    ensures forall x :: x in Without(s, k) ==> x in s
  {
    assert s == s[..k] + [s[k]] + s[k + 1..];
  }

  ghost predicate AllResolve(nodes: seq<NodeSpec>, edges: seq<EdgeSpec>) {
    forall e :: 0 <= e < |edges| ==> EdgeSpecOk(nodes, edges[e])
  }

  lemma AllResolveWithout(nodes: seq<NodeSpec>, edges: seq<EdgeSpec>, k: nat)
    requires k < |edges| && AllResolve(nodes, edges)
    ensures AllResolve(nodes, Without(edges, k))
  {
    hide EdgeSpecOk;
  }

  lemma {:induction false} ResolvedMultiset(nodes: seq<NodeSpec>, a: seq<EdgeSpec>, b: seq<EdgeSpec>)
    requires AllResolve(nodes, a) && AllResolve(nodes, b) && multiset(a) == multiset(b)
    ensures multiset(ResolveAll(nodes, a)) == multiset(ResolveAll(nodes, b))
    decreases |a|
  {
    assert |a| == |multiset(a)| == |multiset(b)| == |b|;
    if a != [] {
      assert a[0] in multiset(b);
      var k :| 0 <= k < |b| && b[k] == a[0];
      hide EdgeSpecOk, Resolve, Without;
      WithoutAt(a, 0);
      WithoutAt(b, k);
      AllResolveWithout(nodes, a, 0);
      AllResolveWithout(nodes, b, k);
      ResolvedWithout(nodes, a, 0);
      ResolvedWithout(nodes, b, k);
      ResolvedMultiset(nodes, Without(a, 0), Without(b, k));
    }
  }

  lemma ResolvedWithout(nodes: seq<NodeSpec>, b: seq<EdgeSpec>, k: nat)
    requires k < |b| && AllResolve(nodes, b) && AllResolve(nodes, Without(b, k))
    ensures multiset(ResolveAll(nodes, b)) ==
      multiset(ResolveAll(nodes, Without(b, k))) + multiset{ResolveAll(nodes, b)[k]}
  {
    hide EdgeSpecOk, Resolve;
    var r := ResolveAll(nodes, b);
    assert ResolveAll(nodes, Without(b, k)) == Without(r, k);
    WithoutAt(r, k);
  }

  /** Reordering nodes and edges changes neither acceptance nor the topology that is built. */
  lemma InsertionOrderIrrelevant(a: TopologySpec, b: TopologySpec)
    requires Acceptable(a) && Reordered(a, b)
    ensures Acceptable(b) && Canonical(b) == Canonical(a)
  {
    NodeOrder();
    EdgeOrder();
    assert |a.nodes| == |multiset(a.nodes)| == |b.nodes| && |a.edges| == |multiset(a.edges)| == |b.edges|;
    SameMembers(a.nodes, b.nodes);
    SameMembers(a.edges, b.edges);
    SeparatedPermuted(NodeLess, a.nodes, b.nodes);
    SortByCanonical(NodeLess, a.nodes, b.nodes);
    var nodes := SortBy(NodeLess, a.nodes);
    forall i | 0 <= i < |b.nodes| ensures NodeOk(b.nodes[i]) { assert b.nodes[i] in a.nodes; }
    forall e | 0 <= e < |b.edges| ensures EdgeSpecOk(nodes, b.edges[e]) { assert b.edges[e] in a.edges; }
    ResolvedMultiset(nodes, a.edges, b.edges);
    SeparatedPermuted(EdgeLess, ResolveAll(nodes, a.edges), ResolveAll(nodes, b.edges));
    SortByCanonical(EdgeLess, ResolveAll(nodes, a.edges), ResolveAll(nodes, b.edges));
  }
}
