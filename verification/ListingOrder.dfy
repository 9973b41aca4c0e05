/** Listing order: permuting the nodes and edges of a definition and the identities of a request leaves a
    completed exact answer as it is. */
module ListingOrder {
  import opened Collections
  import opened Resources
  import opened Sorting
  import opened Topologies
  import opened PropagationGraphs
  import opened BreadthFirst
  import opened Containment
  import opened ResidualPaths
  import opened ExactSolver
  import opened Instances
  import opened MonotonicSafety

  /** The same instance as far as constraints and objective go; lists may be ordered differently. */
  ghost predicate Relisted(p: Problem, q: Problem) {
    && q == p.(graph := q.graph, sources := q.sources, protectedNodes := q.protectedNodes, barred := q.barred,
               candidates := q.candidates)
    && q.graph.conservative == p.graph.conservative && multiset(p.sources) == multiset(q.sources)
  }

  /** Feasibility reads the obligations off the mask; the lists of obligations and barred nodes do not matter. */
  lemma ListsUnused(p: Problem, graph: Graph, obligations: seq<nat>, barred: seq<nat>, candidates: seq<nat>, c: set<nat>)
    requires p.Valid() && graph.conservative == p.graph.conservative
    requires p.(graph := graph, protectedNodes := obligations, barred := barred, candidates := candidates).Valid()
    ensures Feasible(p, c)
       <==> Feasible(p.(graph := graph, protectedNodes := obligations, barred := barred, candidates := candidates), c)
  {
    var q := p.(graph := graph, protectedNodes := obligations, barred := barred, candidates := candidates);
    assert q.Mandatory() == p.Mandatory();
    assert Propagation(p, c) == Propagation(q, c);
    assert AllEligible(p, c) <==> AllEligible(q, c) by {
      assert forall v: nat :: v < p.NodeCount() ==> (p.IsEligible(v) <==> q.IsEligible(v));
    }
  }

  lemma RelistedFeasible(p: Problem, q: Problem, c: set<nat>)
    requires p.Valid() && q.Valid() && Relisted(p, q) && Feasible(p, c)
    ensures Feasible(q, c)
  {
    SameMembers(p.sources, q.sources);
    var r := q.(graph := p.graph, protectedNodes := p.protectedNodes, barred := p.barred, candidates := p.candidates);
    assert r.Valid();
    MoreSourcesFewerFeasible(r, p, c);
    ListsUnused(r, q.graph, q.protectedNodes, q.barred, q.candidates, c);
    assert q == r.(graph := q.graph, protectedNodes := q.protectedNodes, barred := q.barred, candidates := q.candidates);
  }

  lemma RelistedBack(p: Problem, q: Problem)
    requires Relisted(p, q)
    ensures Relisted(q, p)
  {
  }

  /** Listing order decides neither what is feasible nor which set is optimal. */
  lemma ListingOrderIrrelevant(p: Problem, q: Problem)
    requires p.Valid() && q.Valid() && Relisted(p, q)
    ensures forall c :: Feasible(p, c) <==> Feasible(q, c)
    ensures forall c :: UniqueOptimum(p, c) <==> UniqueOptimum(q, c)
    ensures Infeasible(p) <==> Infeasible(q)
  {
    RelistedBack(p, q);
    forall c ensures Feasible(p, c) <==> Feasible(q, c) {
      if Feasible(p, c) { RelistedFeasible(p, q, c); }
      if Feasible(q, c) { RelistedFeasible(q, p, c); }
    }
    hide Feasible;
    forall c ensures ObjectiveOf(p, c) == ObjectiveOf(q, c) {}
  }

  /** Completed answers to relisted instances are the same answer. */
  lemma SameAnswer(p: Problem, q: Problem, m: nat, n: nat, s: CutSolution, t: CutSolution)
    requires p.Valid() && q.Valid() && Relisted(p, q) && p.OverlapSettled()
    requires SolutionOk(p, m, s) && SolutionOk(q, n, t) && !s.budgetExhausted && !t.budgetExhausted
    ensures s.status == t.status && (s.HasSolution() ==> s.members == t.members && s.objective == t.objective)
  {
    ListingOrderIrrelevant(p, q);
    assert q.OverlapSettled() by {
      forall v: nat | q.IsOverlap(v) && q.IsEligible(v) ensures q.requireSources { assert p.IsOverlap(v) && p.IsEligible(v); }
    }
    hide Problem.Valid, Feasible, Reaches, BestReached, RootOpen, WitnessOk;
    if s.HasSolution() && t.HasSolution() {
      OptimumIsUnique(p, Elements(s.members), Elements(t.members));
      AscendingUnique(s.members, t.members);
    }
  }

  // ---------------------------------------------------------------------
  // From permuted inputs
  // ---------------------------------------------------------------------

  /** The same request with its identities in another order. */
  ghost predicate SameRequest(a: InstanceSpec, b: InstanceSpec) {
    && b == a.(failureSources := b.failureSources, protectedObligations := b.protectedObligations,
               forcedIneligible := b.forcedIneligible)
    && multiset(a.failureSources) == multiset(b.failureSources)
    && multiset(a.protectedObligations) == multiset(b.protectedObligations)
    && (forall id :: id in a.forcedIneligible <==> id in b.forcedIneligible)
  }

  lemma IndicesElements(nodes: seq<NodeSpec>, a: seq<ResourceId>, b: seq<ResourceId>)
    requires forall id :: id in a <==> id in b
    ensures Elements(Indices(nodes, a)) == Elements(Indices(nodes, b))
  {
    hide Find;
    forall v | v in Elements(Indices(nodes, a)) ensures v in Elements(Indices(nodes, b)) {
      var i :| 0 <= i < |a| && Indices(nodes, a)[i] == v;
      assert a[i] in b;
      var j :| 0 <= j < |b| && b[j] == a[i];
      assert Indices(nodes, b)[j] == v;
    }
    forall v | v in Elements(Indices(nodes, b)) ensures v in Elements(Indices(nodes, a)) {
      var j :| 0 <= j < |b| && Indices(nodes, b)[j] == v;
      assert b[j] in a;
      var i :| 0 <= i < |a| && a[i] == b[j];
      assert Indices(nodes, a)[i] == v;
    }
  }

  lemma {:induction false} IndicesMultiset(nodes: seq<NodeSpec>, a: seq<ResourceId>, b: seq<ResourceId>)
    requires multiset(a) == multiset(b)
    ensures multiset(Indices(nodes, a)) == multiset(Indices(nodes, b))
    decreases |a|
  {
    assert |a| == |multiset(a)| == |multiset(b)| == |b|;
    if a != [] {
      assert a[0] in multiset(b);
      var k :| 0 <= k < |b| && b[k] == a[0];
      hide Indices, Topologies.Without;
      Topologies.WithoutAt(a, 0);
      Topologies.WithoutAt(b, k);
      IndicesWithout(nodes, a, 0);
      IndicesWithout(nodes, b, k);
      IndicesMultiset(nodes, Topologies.Without(a, 0), Topologies.Without(b, k));
      IndexOfId(nodes, a, 0);
      IndexOfId(nodes, b, k);
    }
  }

  lemma IndicesWithout(nodes: seq<NodeSpec>, ids: seq<ResourceId>, k: nat)
    requires k < |ids|
    ensures multiset(Indices(nodes, ids)) == multiset(Indices(nodes, Topologies.Without(ids, k))) + multiset{Indices(nodes, ids)[k]}
  {
    hide Find;
    var r := Indices(nodes, ids);
    assert Indices(nodes, Topologies.Without(ids, k)) == Topologies.Without(r, k);
    Topologies.WithoutAt(r, k);
  }

  lemma IndexOfId(nodes: seq<NodeSpec>, ids: seq<ResourceId>, k: nat)
    requires k < |ids|
    ensures Indices(nodes, ids)[k] == match Find(nodes, ids[k]) case Some(v) => v case None => |nodes|
  {
  }

  /** Two graphs of one topology have the same adjacency lists. */
  lemma SameAdjacency(t: Topology, g: Graph, h: Graph)
    requires GraphOf(t, g) && GraphOf(t, h)
    ensures g.conservative == h.conservative
  {
    forall u | 0 <= u < |t.nodes| ensures g.conservative[u] == h.conservative[u] {
      assert forall v :: v in g.conservative[u] <==> v in h.conservative[u];
      AscendingUnique(g.conservative[u], h.conservative[u]);
    }
  }

  /** Permuted requests over one topology build relisted instances. */
  lemma RequestsRelisted(t: Topology, g: Graph, h: Graph, a: InstanceSpec, b: InstanceSpec, p: Problem, q: Problem)
    requires GraphOf(t, g) && GraphOf(t, h) && SameRequest(a, b)
    requires BuiltFrom(t, g, a, p) && BuiltFrom(t, h, b, q)
    ensures Relisted(p, q)
  {
    hide Indices, GraphOf, Find;
    SameAdjacency(t, g, h);
    SameMembers(a.failureSources, b.failureSources);
    SameMembers(a.protectedObligations, b.protectedObligations);
    IndicesMultiset(t.nodes, a.failureSources, b.failureSources);
    IndicesElements(t.nodes, a.failureSources, b.failureSources);
    IndicesElements(t.nodes, a.protectedObligations, b.protectedObligations);
    IndicesElements(t.nodes, a.forcedIneligible, b.forcedIneligible);
    MaskDetermined(p.isSource, q.isSource);
    MaskDetermined(p.isProtected, q.isProtected);
    SameFields(t, g, h, a, b, p, q);
  }

  lemma SameFields(t: Topology, g: Graph, h: Graph, a: InstanceSpec, b: InstanceSpec, p: Problem, q: Problem)
    requires BuiltFrom(t, g, a, p) && BuiltFrom(t, h, b, q) && p.isProtected == q.isProtected && a.allowProtected == b.allowProtected
    requires Elements(Indices(t.nodes, a.forcedIneligible)) == Elements(Indices(t.nodes, b.forcedIneligible))
    ensures p.ids == q.ids && p.weights == q.weights && p.containable == q.containable
  {
    hide Indices, Find;
  }

  /** Permute the nodes and edges of a definition, the sources, the obligations and the barred identities of
      a request: whatever order they come in, the completed answer is the same set of resources. */
  lemma PermutedInputsSameAnswer(d: TopologySpec, e: TopologySpec, g: Graph, h: Graph, a: InstanceSpec, b: InstanceSpec,
    p: Problem, q: Problem, m: nat, n: nat, s: CutSolution, t: CutSolution)
    requires Acceptable(d) && Reordered(d, e) && SameRequest(a, b)
    requires GraphOf(Canonical(d), g) && BuiltFrom(Canonical(d), g, a, p) && p.Valid() && p.OverlapSettled()
    requires Acceptable(e) && GraphOf(Canonical(e), h) && BuiltFrom(Canonical(e), h, b, q) && q.Valid()
    requires SolutionOk(p, m, s) && SolutionOk(q, n, t) && !s.budgetExhausted && !t.budgetExhausted
    ensures s.status == t.status && (s.HasSolution() ==> s.objective == t.objective)
    ensures s.HasSolution() ==> s.members == t.members && p.ids == q.ids
  {
    hide Acceptable, Canonical, Reordered, GraphOf, BuiltFrom, SolutionOk, Problem.Valid;
    InsertionOrderIrrelevant(d, e);
    RequestsRelisted(Canonical(d), g, h, a, b, p, q);
    SameAnswer(p, q, m, n, s, t);
  }
}
