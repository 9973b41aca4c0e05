/** Monotonic safety: how the feasible family reacts to more failures, refuted edges and
    promoted evidence. */
module MonotonicSafety {
  import opened Collections
  import opened Sorting
  import opened Topologies
  import opened PropagationGraphs
  import opened BreadthFirst
  import opened Containment

  /** The same instance apart from its graph and candidate list. */
  ghost predicate SameButGraph(p: Problem, q: Problem) {
    q == p.(graph := q.graph, candidates := q.candidates)
  }

  /** Every conservative link of `h` is one of `g`. */
  ghost predicate SubGraph(h: Graph, g: Graph) {
    |h.conservative| == |g.conservative| &&
    forall u: nat, v: nat :: Link(h.conservative, u, v) ==> Link(g.conservative, u, v)
  }

  lemma WalkSurvives(s: Search, t: Search, q: seq<nat>)
    requires Walk(s, q) && |s.succ| == |t.succ|
    requires forall u: nat, v: nat :: Link(s.succ, u, v) ==> Link(t.succ, u, v)
    requires forall v :: v in s.sources ==> v in t.sources
    requires t.removed == s.removed
    ensures Walk(t, q)
  {
    forall i | 0 < i < |q| ensures Link(t.succ, q[i - 1], q[i]) { assert Link(s.succ, q[i - 1], q[i]); }
  }

  /** Fewer conservative links: everything feasible stays feasible, in particular every cut of the
      conservative graph is a cut of every realisation of the UNKNOWN edges. */
  lemma FewerLinksMoreFeasible(p: Problem, q: Problem, c: set<nat>)
    requires p.Valid() && q.Valid() && SameButGraph(p, q) && SubGraph(q.graph, p.graph) && Feasible(p, c)
    ensures Feasible(q, c)
  {
    assert q.Mandatory() == p.Mandatory();
    assert AllEligible(q, c) by {
      forall v | v in c ensures v < q.NodeCount() && q.IsEligible(v) { assert p.IsEligible(v); }
    }
    if Connects(q, c) {
      var w :| TargetWalk(Propagation(q, c), w);
      WalkSurvives(Propagation(q, c), Propagation(p, c), w);
      assert TargetWalk(Propagation(p, c), w);
    }
  }

  /** Two topologies that differ only in the evidence of their edges. */
  ghost predicate Reclassified(t: Topology, u: Topology) {
    t.nodes == u.nodes && |t.edges| == |u.edges| &&
    forall e :: 0 <= e < |t.edges| ==> t.edges[e].from == u.edges[e].from && t.edges[e].to == u.edges[e].to
  }

  /** No edge was refuted in `t` that is not refuted in `u`: `u` is at least as refuted. */
  ghost predicate OnlyRefutes(t: Topology, u: Topology) {
    Reclassified(t, u) && forall e :: 0 <= e < |t.edges| && t.edges[e].evidence.Refuted? ==> u.edges[e].evidence.Refuted?
  }

  /** Every UNKNOWN edge is decided one way or the other; the rest keeps its evidence. */
  ghost predicate Realisation(t: Topology, u: Topology) {
    Reclassified(t, u) && forall e :: 0 <= e < |t.edges| ==>
      if t.edges[e].evidence.Unknown? then !u.edges[e].evidence.Unknown? else u.edges[e].evidence == t.edges[e].evidence
  }

  /** Promotion of UNKNOWN edges to PROVEN, nothing else. */
  ghost predicate Promotion(t: Topology, u: Topology) {
    Reclassified(t, u) && forall e :: 0 <= e < |t.edges| ==>
      u.edges[e].evidence == t.edges[e].evidence || (t.edges[e].evidence.Unknown? && u.edges[e].evidence.Proven?)
  }

  lemma LinkIsEdge(t: Topology, g: Graph, x: nat, y: nat)
    requires GraphOf(t, g)
    ensures Link(g.conservative, x, y) <==> x < |t.nodes| && HasEdge(t.edges, {Proven, Unknown}, x, y)
  {
  }

  lemma RefutingShrinksGraph(t: Topology, u: Topology, g: Graph, h: Graph)
    requires OnlyRefutes(t, u) && GraphOf(t, g) && GraphOf(u, h)
    ensures SubGraph(h, g)
  {
    forall x: nat, y: nat | Link(h.conservative, x, y) ensures Link(g.conservative, x, y) {
      LinkIsEdge(u, h, x, y);
      LinkIsEdge(t, g, x, y);
      var e :| 0 <= e < |u.edges| && u.edges[e].from == x && u.edges[e].to == y && u.edges[e].evidence in {Proven, Unknown};
      assert !t.edges[e].evidence.Refuted? && t.edges[e].evidence in {Proven, Unknown};
    }
  }

  /** Refuting edges only grows the feasible family. */
  lemma RefutingGrowsFeasible(t: Topology, u: Topology, p: Problem, q: Problem, c: set<nat>)
    requires OnlyRefutes(t, u) && GraphOf(t, p.graph) && GraphOf(u, q.graph)
    requires p.Valid() && q.Valid() && SameButGraph(p, q) && Feasible(p, c)
    ensures Feasible(q, c)
  {
    RefutingShrinksGraph(t, u, p.graph, q.graph);
    FewerLinksMoreFeasible(p, q, c);
  }

  /** A set that is feasible conservatively is feasible whatever the UNKNOWN edges turn out to be. */
  lemma SafeForEveryRealisation(t: Topology, u: Topology, p: Problem, q: Problem, c: set<nat>)
    requires Realisation(t, u) && GraphOf(t, p.graph) && GraphOf(u, q.graph)
    requires p.Valid() && q.Valid() && SameButGraph(p, q) && Feasible(p, c)
    ensures Feasible(q, c)
  {
    assert OnlyRefutes(t, u);
    RefutingGrowsFeasible(t, u, p, q, c);
  }

  /** Conservatism is tight: a set cuts every realisation exactly when it cuts the conservative graph,
      because the realisation that proves every UNKNOWN edge is the conservative graph itself. */
  lemma ConservativeIsTight(t: Topology, u: Topology, p: Problem, q: Problem, c: set<nat>)
    requires Reclassified(t, u) && GraphOf(t, p.graph) && GraphOf(u, q.graph)
    requires forall e :: 0 <= e < |t.edges| ==> (u.edges[e].evidence.Refuted? <==> t.edges[e].evidence.Refuted?)
    requires p.Valid() && q.Valid() && SameButGraph(p, q)
    ensures Feasible(p, c) <==> Feasible(q, c)
  {
    assert OnlyRefutes(t, u) && OnlyRefutes(u, t);
    if Feasible(p, c) { RefutingGrowsFeasible(t, u, p, q, c); }
    if Feasible(q, c) { RefutingGrowsFeasible(u, t, q, p, c); }
  }

  /** Promoting UNKNOWN to PROVEN changes neither the feasible family nor the optimum. */
  lemma PromotionChangesNothing(t: Topology, u: Topology, p: Problem, q: Problem)
    requires Promotion(t, u) && GraphOf(t, p.graph) && GraphOf(u, q.graph)
    requires p.Valid() && q.Valid() && SameButGraph(p, q)
    ensures forall c :: Feasible(p, c) <==> Feasible(q, c)
    ensures forall c :: UniqueOptimum(p, c) <==> UniqueOptimum(q, c)
  {
    forall c ensures Feasible(p, c) <==> Feasible(q, c) { ConservativeIsTight(t, u, p, q, c); }
    forall c ensures ObjectiveOf(p, c) == ObjectiveOf(q, c) {}
  }

  /** The same instance with more failure sources. */
  ghost predicate MoreSources(p: Problem, q: Problem) {
    && q == p.(sources := q.sources, isSource := q.isSource, candidates := q.candidates)
    && forall v :: v in p.sources ==> v in q.sources
  }

  /** Adding failure sources only shrinks the feasible family, so the optimum cannot improve. */
  lemma MoreSourcesFewerFeasible(p: Problem, q: Problem, c: set<nat>)
    requires p.Valid() && q.Valid() && MoreSources(p, q) && Feasible(q, c)
    ensures Feasible(p, c)
  {
    assert p.Mandatory() <= c by {
      forall v | v in p.Mandatory() ensures v in c {
        assert v in Elements(p.sources) && v in Elements(q.sources);
        assert v in q.Mandatory();
      }
    }
    assert AllEligible(p, c) by {
      forall v | v in c ensures v < p.NodeCount() && p.IsEligible(v) { assert q.IsEligible(v); }
    }
    if Connects(p, c) {
      var w :| TargetWalk(Propagation(p, c), w);
      WalkSurvives(Propagation(p, c), Propagation(q, c), w);
      assert TargetWalk(Propagation(q, c), w);
    }
  }

  lemma OptimumCannotImprove(p: Problem, q: Problem, a: set<nat>, b: set<nat>)
    requires p.Valid() && q.Valid() && MoreSources(p, q) && UniqueOptimum(p, a) && UniqueOptimum(q, b)
    ensures !ObjectiveLess(ObjectiveOf(q, b), ObjectiveOf(p, a), p.minimizeProtected)
  {
    MoreSourcesFewerFeasible(p, q, b);
    assert ObjectiveOf(q, b) == ObjectiveOf(p, b);
    if a == b {
      ObjectiveIrreflexive(ObjectiveOf(p, a), p.minimizeProtected);
    } else if ObjectiveLess(ObjectiveOf(p, b), ObjectiveOf(p, a), p.minimizeProtected) {
      ObjectiveTransitive(ObjectiveOf(p, a), ObjectiveOf(p, b), ObjectiveOf(p, a), p.minimizeProtected);
      ObjectiveIrreflexive(ObjectiveOf(p, a), p.minimizeProtected);
    }
  }

  /** Necessity grows with the failures: a member of every feasible set stays one. */
  lemma NecessityGrows(p: Problem, q: Problem, v: nat)
    requires p.Valid() && q.Valid() && MoreSources(p, q)
    requires forall c :: Feasible(p, c) ==> v in c
    ensures forall c :: Feasible(q, c) ==> v in c
  {
    forall c | Feasible(q, c) ensures v in c { MoreSourcesFewerFeasible(p, q, c); }
  }
}
