/** Nodes that are failed and protected at once: the exact solver's two proofs are right, whatever surrounds
    such nodes, exactly when each of them is mandatory or in no containment set. */
module OverlapCondition {
  import opened Collections
  import opened Resources
  import opened BreadthFirst
  import opened PropagationGraphs
  import opened Containment
  import opened ResidualPaths
  import opened CutVerifier
  import opened SearchBounds
  import opened ExactSolver
  import opened ExactAnswers

  const MAX_SOURCES := 4096

  /** `q` keeps the roles of `p`'s nodes and the policy. Graph, weights, identities, bounds and candidates
      are its own, and so are further nodes, as long as none of them is failed and protected at once. */
  ghost predicate Surrounds(p: Problem, q: Problem)
    requires p.Valid()
  {
    && q.Valid() && q.ObligationsSettled() && p.NodeCount() <= q.NodeCount()
    && (forall v :: 0 <= v < p.NodeCount() ==>
          q.containable[v] == p.containable[v] && q.isProtected[v] == p.isProtected[v] && q.isSource[v] == p.isSource[v])
    && (forall v: nat :: p.NodeCount() <= v < q.NodeCount() ==> !(q.isSource[v] && q.isProtected[v]))
    && q.requireSources == p.requireSources && q.allowProtected == p.allowProtected
    && q.minimizeProtected == p.minimizeProtected
  }

  lemma SettledSurrounds(p: Problem, q: Problem)
    requires p.Valid() && p.OverlapSettled() && Surrounds(p, q)
    ensures q.OverlapSettled()
  {
    forall v: nat | q.IsOverlap(v) && q.IsEligible(v) ensures q.requireSources {
      assert p.IsOverlap(v) && p.IsEligible(v);
    }
  }

  function Overlaps(p: Problem): set<nat>
    requires p.Valid()
  {
    set v: nat | v < p.NodeCount() && p.isSource[v] && p.isProtected[v]
  }

  lemma OverlapsCounted(p: Problem)
    requires p.Valid()
    ensures |Overlaps(p)| <= |p.sources|
  {
    assert Overlaps(p) <= Elements(p.sources) by {
      forall v | v in Overlaps(p) ensures v in Elements(p.sources) { assert v in Marked(p.isSource); }
    }
    SubsetCount(Overlaps(p), Elements(p.sources));
    DistinctIffCount(p.sources);
  }

  /** What an unsettled overlap says about the policy. */
  lemma Unsettled(p: Problem)
    requires p.Valid() && !p.OverlapSettled()
    ensures !p.requireSources && p.allowProtected && Overlaps(p) != {}
  {
    var v: nat :| p.IsOverlap(v) && p.IsEligible(v) && !p.requireSources;
    assert v in Overlaps(p);
  }

  /** A set that holds every overlap cuts exactly when it leaves no residual path. */
  lemma HoldsOverlaps(q: Problem, c: set<nat>)
    requires q.Valid() && Overlaps(q) <= c && !HasResidualPath(q, c)
    ensures !Connects(q, c)
  {
    ConnectsExactly(q, c);
    assert forall v: nat :: q.IsOverlap(v) ==> v in Overlaps(q);
  }

  lemma MissesOverlap(q: Problem, c: set<nat>)
    requires q.Valid() && !(Overlaps(q) <= c)
    ensures !Feasible(q, c)
  {
    var v :| v in Overlaps(q) && v !in c;
    assert q.IsOverlap(v);
    ConnectsExactly(q, c);
  }

  // ---------------------------------------------------------------------
  // Proven infeasible
  // ---------------------------------------------------------------------

  /** The same nodes with no edge at all and generous bounds. */
  function Edgeless(p: Problem): Problem {
    var n := p.NodeCount();
    var none := seq(n, _ => []);
    p.(graph := Graph(none, none, none, {}), maxTotalWeight := MAX_TOPOLOGY_NODES * MAX_NODE_WEIGHT,
       maxMembers := MAX_BOUNDARY_MEMBERS)
  }

  lemma EdgelessPaths(p: Problem, removed: set<nat>)
    requires p.Valid()
    ensures !HasResidualPath(Edgeless(p), removed)
  {
    var s := Residual(Edgeless(p), removed);
    assert forall u: nat, x: nat :: !Link(s.succ, u, x);
    forall q ensures !TargetWalk(s, q) {
      if |q| > 1 { assert !Link(s.succ, q[1 - 1], q[1]); }
    }
  }

  lemma EdgelessSurrounds(p: Problem)
    requires p.Valid() && p.ObligationsSettled()
    ensures Surrounds(p, Edgeless(p)) && Edgeless(p).NodeCount() == p.NodeCount()
    ensures Overlaps(Edgeless(p)) == Overlaps(p)
  {
    assert Edgeless(p).graph.Valid();
  }

  lemma EdgelessSolvable(p: Problem)
    requires p.Valid() && !p.OverlapSettled()
    ensures Edgeless(p).NodeCount() > 0 && Edgeless(p).sources != [] && Edgeless(p).protectedNodes != []
  {
    var v: nat :| p.IsOverlap(v) && p.IsEligible(v) && !p.requireSources;
    assert v in Marked(p.isSource) && v in Marked(p.isProtected);
  }

  /** Containing every overlap is feasible there. */
  lemma EdgelessFeasible(p: Problem)
    requires p.Valid() && p.ObligationsSettled() && !p.OverlapSettled() && |p.sources| <= MAX_SOURCES
    ensures Edgeless(p).Valid() && Feasible(Edgeless(p), Overlaps(p))
  {
    var q, c := Edgeless(p), Overlaps(p);
    EdgelessSurrounds(p);
    Unsettled(p);
    OverlapsCounted(p);
    EdgelessPaths(p, c);
    HoldsOverlaps(q, c);
    WeightFits(q, c);
    assert q.Mandatory() == {};
    forall v | v in c ensures v < q.NodeCount() && q.IsEligible(v) {}
  }

  /** Yet every answer the budget allows to complete says that nothing is: branching has nothing to branch on. */
  lemma EdgelessAnswer(p: Problem, maxExplored: nat, s: CutSolution)
    requires p.Valid() && p.ObligationsSettled() && !p.OverlapSettled() && Edgeless(p).Valid()
    requires SolutionOk(Edgeless(p), maxExplored, s) && !s.budgetExhausted
    ensures s.status.ProvenInfeasible?
  {
    var q := Edgeless(p);
    EdgelessSurrounds(p);
    Unsettled(p);
    EdgelessPaths(p, {});
    assert q.Mandatory() == {};
    MissesOverlap(q, {});
  }

  /** Every answer within a budget that always suffices is a proof of infeasibility, and a wrong one. */
  ghost predicate AlwaysCalledInfeasible(q: Problem)
    requires q.Valid()
  {
    !Infeasible(q) && forall m: nat, s :: m >= Sufficient(q) && SolutionOk(q, m, s) ==> s.status.ProvenInfeasible?
  }

  lemma EdgelessMisjudged(p: Problem)
    requires p.Valid() && p.ObligationsSettled() && !p.OverlapSettled() && |p.sources| <= MAX_SOURCES
    ensures Edgeless(p).Valid() && AlwaysCalledInfeasible(Edgeless(p))
  {
    EdgelessFeasible(p);
    hide Feasible, Edgeless, Problem.Valid, SolutionOk;
    forall m: nat, s | m >= Sufficient(Edgeless(p)) && SolutionOk(Edgeless(p), m, s) ensures s.status.ProvenInfeasible? {
      SufficientCompletes(Edgeless(p), m, s);
      EdgelessAnswer(p, m, s);
    }
  }

  /** Over the same nodes, roles and policy, every proof of infeasibility is right if and only if every
      overlap is mandatory or not containable. Otherwise on some graph no sufficient budget helps. */
  lemma InfeasibleVerdictsExact(p: Problem)
    requires p.Valid() && p.ObligationsSettled() && |p.sources| <= MAX_SOURCES
    ensures p.OverlapSettled() <==>
      forall q: Problem, m: nat, s ::
        Surrounds(p, q) && q.NodeCount() == p.NodeCount() && SolutionOk(q, m, s) && s.status.ProvenInfeasible?
        ==> Infeasible(q)
    ensures !p.OverlapSettled() ==>
      exists q: Problem :: Surrounds(p, q) && q.NodeCount() == p.NodeCount() && AlwaysCalledInfeasible(q)
  {
    if p.OverlapSettled() {
      forall q: Problem, m: nat, s |
        Surrounds(p, q) && q.NodeCount() == p.NodeCount() && SolutionOk(q, m, s) && s.status.ProvenInfeasible?
        ensures Infeasible(q)
      {
        SettledSurrounds(p, q);
      }
    } else {
      EdgelessSurrounds(p);
      EdgelessMisjudged(p);
      hide SolutionOk, Surrounds, Infeasible, Sufficient, Edgeless;
      var s := AnswerExists(Edgeless(p), Sufficient(Edgeless(p)));
    }
  }

  // ---------------------------------------------------------------------
  // Proven optimal
  // ---------------------------------------------------------------------

  /** Three more nodes: a plain source `a`, a plain bottleneck `y` and an obligation `t`. The new source and
      every overlap lead to `y`, and `y` leads to `t`. Containing `a` costs 2, anything else 1. */
  function Fork(p: Problem): Problem
    requires p.Valid()
  {
    var n := p.NodeCount();
    var starts := Overlaps(p) + {n};
    Problem(
      Graph(seq(n + 3, u requires u >= 0 => ForkOut(starts, n, u)), seq(n + 3, u requires u >= 0 => ForkIn(starts, n, u)),
            seq(n + 3, _ => []), {}),
      [n] + p.sources, p.protectedNodes + [n + 2], [], [], seq(n + 3, i requires i >= 0 => Letters(i)),
      p.containable + [true, true, true], p.isProtected + [false, false, true], p.isSource + [true, false, false],
      seq(n + 3, v => if v == n then 2 else 1), p.requireSources, p.allowProtected, p.minimizeProtected,
      MAX_TOPOLOGY_NODES * MAX_NODE_WEIGHT, MAX_BOUNDARY_MEMBERS)
  }

  function ForkOut(starts: set<nat>, n: nat, u: nat): seq<nat> {
    if u in starts then [n + 1] else if u == n + 1 then [n + 2] else []
  }

  function ForkIn(starts: set<nat>, n: nat, u: nat): seq<nat> {
    if u == n + 1 then MembersBelow(starts, n + 1) else if u == n + 2 then [n + 1] else []
  }

  lemma ForkMasks(p: Problem)
    requires p.Valid()
    ensures var q, n := Fork(p), p.NodeCount();
            && Marked(q.isSource) == Marked(p.isSource) + {n} && Marked(q.isProtected) == Marked(p.isProtected) + {n + 2}
            && Elements(q.sources) == Elements(p.sources) + {n} && Elements(q.protectedNodes) == Elements(p.protectedNodes) + {n + 2}
            && Distinct(q.sources)
  {
    var q, n := Fork(p), p.NodeCount();
    ElementsAppend(p.protectedNodes, n + 2);
    assert forall v :: v in [n] + p.sources <==> v == n || v in p.sources;
    assert n !in p.sources by { assert n !in Elements(p.sources); }
  }

  lemma ForkGraph(p: Problem)
    requires p.Valid()
    ensures Fork(p).graph.Valid()
    ensures var q, n := Fork(p), p.NodeCount();
      forall u: nat, x: nat :: Link(q.graph.conservative, u, x) <==> ForkLink(Overlaps(p) + {n}, n, u, x)
  {
    hide Problem.Valid, ForkOut, ForkIn, ForkLink;
    var g, n := Fork(p).graph, p.NodeCount();
    var starts := Overlaps(p) + {n};
    NodesBelow(p);
    forall u: nat, x: nat
      ensures x in ForkOut(starts, n, u) <==> ForkLink(starts, n, u, x)
      ensures x in ForkOut(starts, n, u) ==> x < n + 3
    {
      ForkOutExactly(starts, n, u, x);
    }
    forall u: nat, x: nat
      ensures u in ForkIn(starts, n, x) <==> ForkLink(starts, n, u, x)
      ensures u in ForkIn(starts, n, x) ==> u < n + 3
    {
      ForkInExactly(starts, n, u, x);
    }
    forall u: nat ensures Ascending(ForkOut(starts, n, u)) { ForkOutExactly(starts, n, u, 0); }
    assert |g.conservative| == |g.conservativeIn| == |g.proven| == n + 3;
    forall u, x: nat | 0 <= u < n + 3 && (x in g.conservative[u] || x in g.conservativeIn[u]) ensures x < n + 3 {
      assert x in g.conservative[u] ==> x in ForkOut(starts, n, u);
      assert x in g.conservativeIn[u] ==> x in ForkIn(starts, n, u);
    }
    forall u, x | 0 <= u < n + 3 && 0 <= x < n + 3 ensures x in g.conservative[u] <==> u in g.conservativeIn[x] {
      assert x in ForkOut(starts, n, u) <==> u in ForkIn(starts, n, x);
    }
    forall u: nat, x: nat ensures Link(g.conservative, u, x) <==> ForkLink(starts, n, u, x) {
      if u >= n + 3 { NoForkLink(starts, n, u, x); }
    }
  }

  ghost predicate ForkLink(starts: set<nat>, n: nat, u: nat, x: nat) {
    (u in starts && x == n + 1) || (u == n + 1 && x == n + 2)
  }

  lemma ForkOutExactly(starts: set<nat>, n: nat, u: nat, x: nat)
    requires forall v :: v in starts ==> v <= n
    ensures x in ForkOut(starts, n, u) <==> ForkLink(starts, n, u, x)
    ensures Ascending(ForkOut(starts, n, u)) && (x in ForkOut(starts, n, u) ==> x < n + 3)
  {
  }

  lemma ForkInExactly(starts: set<nat>, n: nat, u: nat, x: nat)
    requires forall v :: v in starts ==> v <= n
    ensures u in ForkIn(starts, n, x) <==> ForkLink(starts, n, u, x)
    ensures u in ForkIn(starts, n, x) ==> u < n + 3
  {
    var s := MembersBelow(starts, n + 1);
    assert u in s <==> u in Elements(s);
  }

  lemma NoForkLink(starts: set<nat>, n: nat, u: nat, x: nat)
    requires (forall v :: v in starts ==> v <= n) && u >= n + 3
    ensures !ForkLink(starts, n, u, x)
  {
  }

  lemma ForkSurrounds(p: Problem)
    requires p.Valid() && p.ObligationsSettled() && !p.OverlapSettled() && p.NodeCount() + 3 <= MAX_TOPOLOGY_NODES
    ensures Surrounds(p, Fork(p)) && Overlaps(Fork(p)) == Overlaps(p)
    ensures Fork(p).Valid() && Fork(p).Mandatory() == {}
  {
    var q := Fork(p);
    Unsettled(p);
    ForkMasks(p);
    ForkGraph(p);
    forall i, j | 0 <= i < j < |q.ids| ensures IdLess(q.ids[i], q.ids[j]) { PrefixLess(q.ids[i], q.ids[j]); }
  }

  /** A start, the bottleneck, the obligation. */
  ghost predicate ForkRoute(starts: set<nat>, n: nat, removed: set<nat>, w: seq<nat>) {
    |w| == 3 && w[0] in starts && w[1] == n + 1 && w[2] == n + 2 && removed !! {w[0], n + 1, n + 2}
  }

  /** What a search of the fork may use. */
  ghost predicate ForkSearch(starts: set<nat>, n: nat, s: Search) {
    && (forall v :: v in s.sources ==> v <= n && v !in s.targets) && (forall v :: v in starts ==> v <= n && v in s.sources)
    && n + 1 !in s.targets && n + 2 in s.targets && |s.succ| == n + 3
    && (forall u: nat, x: nat :: Link(s.succ, u, x) <==> ForkLink(starts, n, u, x))
  }

  lemma ForkSearched(p: Problem, removed: set<nat>)
    requires p.Valid()
    ensures ForkSearch(Overlaps(p) + {p.NodeCount()}, p.NodeCount(), Residual(Fork(p), removed))
  {
    var n, s := p.NodeCount(), Residual(Fork(p), removed);
    ForkMasks(p);
    ForkGraph(p);
    NodesBelow(p);
    assert |s.succ| == n + 3;
    hide Fork, Graph.Valid, ForkLink, Link;
    forall v | v in s.sources ensures v <= n && v !in s.targets { assert v in Elements(s.sources); }
    forall v | v in Overlaps(p) + {n} ensures v <= n && v in s.sources {
      assert v in Overlaps(p) ==> v in Marked(p.isSource);
      assert v in Elements(s.sources);
    }
    assert n + 2 !in Elements(p.sources) + {n} by { assert forall v :: v in Elements(p.sources) ==> v in p.sources; }
    assert n + 1 !in Marked(p.isProtected) + {n + 2};
  }

  /** The residual paths of the fork: from an open start over the bottleneck. */
  lemma ForkPaths(p: Problem, removed: set<nat>, w: seq<nat>)
    requires p.Valid()
    ensures TargetWalk(Residual(Fork(p), removed), w) <==> ForkRoute(Overlaps(p) + {p.NodeCount()}, p.NodeCount(), removed, w)
  {
    ForkSearched(p, removed);
    assert Residual(Fork(p), removed).removed == removed;
    hide Fork, Residual, ForkSearch, Problem.Valid, Overlaps, TargetWalk;
    ForkWalk(Overlaps(p) + {p.NodeCount()}, p.NodeCount(), Residual(Fork(p), removed), w);
  }

  lemma ForkWalk(starts: set<nat>, n: nat, s: Search, w: seq<nat>)
    requires ForkSearch(starts, n, s)
    ensures TargetWalk(s, w) <==> ForkRoute(starts, n, s.removed, w)
  {
    hide Link;
    if TargetWalk(s, w) {
      assert w[0] in s.sources;
      assert |w| > 1;
      WalkStep(s, w, 1);
      assert |w| > 2;
      WalkStep(s, w, 2);
      if |w| > 3 { WalkStep(s, w, 3); }
    }
    if ForkRoute(starts, n, s.removed, w) {
      forall i | 0 < i < |w| ensures Link(s.succ, w[i - 1], w[i]) { assert i == 1 || i == 2; }
    }
  }

  /** The bottleneck, or every start, cuts the fork. */
  lemma ForkCut(p: Problem, c: set<nat>)
    requires p.Valid() && (p.NodeCount() + 1 in c || Overlaps(p) + {p.NodeCount()} <= c)
    ensures !HasResidualPath(Fork(p), c)
  {
    hide Fork, Residual, TargetWalk, Problem.Valid, Overlaps;
    forall w ensures !TargetWalk(Residual(Fork(p), c), w) { ForkPaths(p, c, w); }
  }

  lemma NodesBelow(p: Problem)
    requires p.Valid()
    ensures forall v :: v in p.sources ==> v < p.NodeCount()
    ensures forall v :: v in Overlaps(p) ==> v < p.NodeCount()
  {
    forall v | v in p.sources ensures v < p.NodeCount() {
      assert v in Elements(p.sources) && v in Marked(p.isSource);
    }
  }

  /** The set the search finds, and the better one it gives up with the bottleneck. */
  ghost function FoundSet(p: Problem): set<nat>
    requires p.Valid()
  {
    Overlaps(p) + {p.NodeCount()}
  }

  ghost function MissedSet(p: Problem): set<nat>
    requires p.Valid()
  {
    Overlaps(p) + {p.NodeCount() + 1}
  }

  lemma ForkEligible(p: Problem, c: set<nat>)
    requires p.Valid() && p.ObligationsSettled() && !p.OverlapSettled() && p.NodeCount() + 3 <= MAX_TOPOLOGY_NODES
    requires |p.sources| <= MAX_SOURCES && Overlaps(p) <= c <= Overlaps(p) + {p.NodeCount(), p.NodeCount() + 1}
    requires !HasResidualPath(Fork(p), c)
    ensures Fork(p).Valid() && Feasible(Fork(p), c)
  {
    var q := Fork(p);
    ForkSurrounds(p);
    Unsettled(p);
    hide HasResidualPath, Graph.Valid, Problem.Valid, Connects;
    OverlapsCounted(p);
    HoldsOverlaps(q, c);
    WeightFits(q, c);
    SubsetCount(c, Overlaps(p) + {p.NodeCount(), p.NodeCount() + 1});
    ForkContainable(p, c);
  }

  lemma ForkContainable(p: Problem, c: set<nat>)
    requires p.Valid() && p.ObligationsSettled() && Fork(p).Valid() && p.allowProtected
    requires c <= Overlaps(p) + {p.NodeCount(), p.NodeCount() + 1}
    ensures AllEligible(Fork(p), c)
  {
    hide Graph.Valid;
    forall v | v in c ensures v < Fork(p).NodeCount() && Fork(p).IsEligible(v) {}
  }

  lemma ForkFeasible(p: Problem)
    requires p.Valid() && p.ObligationsSettled() && !p.OverlapSettled() && p.NodeCount() + 3 <= MAX_TOPOLOGY_NODES
    requires |p.sources| <= MAX_SOURCES
    ensures Fork(p).Valid() && Feasible(Fork(p), FoundSet(p)) && Feasible(Fork(p), MissedSet(p))
  {
    hide Fork, Feasible, Problem.Valid, HasResidualPath, Overlaps;
    ForkCut(p, FoundSet(p));
    ForkCut(p, MissedSet(p));
    ForkEligible(p, FoundSet(p));
    ForkEligible(p, MissedSet(p));
  }

  /** The missed set costs one less and holds as many obligations. */
  lemma MissedIsBetter(p: Problem, minimizeProtected: bool)
    requires p.Valid() && p.NodeCount() + 3 <= MAX_TOPOLOGY_NODES
    ensures ObjectiveLess(ObjectiveOf(Fork(p), MissedSet(p)), ObjectiveOf(Fork(p), FoundSet(p)), minimizeProtected)
  {
    var q, n := Fork(p), p.NodeCount();
    assert forall v :: v in Overlaps(p) ==> v < n;
    SumAdd(q.weights, Overlaps(p), n);
    SumAdd(q.weights, Overlaps(p), n + 1);
    SumAdd(Flags(q.isProtected), Overlaps(p), n);
    SumAdd(Flags(q.isProtected), Overlaps(p), n + 1);
  }

  /** From any part of it, branching goes on to the found set. */
  lemma {:induction false} ForkReaches(p: Problem, included: set<nat>)
    requires p.Valid() && Fork(p).Valid() && Feasible(Fork(p), FoundSet(p)) && included <= FoundSet(p)
    ensures Reaches(Fork(p), included, FoundSet(p))
    decreases FoundSet(p) - included
  {
    hide Fork, Problem.Valid, Feasible;
    var q, n := Fork(p), p.NodeCount();
    assert forall v :: v in Overlaps(p) ==> v < n;
    if HasResidualPath(q, included) {
      var w :| TargetWalk(Residual(q, included), w);
      var path := LeastTargetWalkExists(Residual(q, included), w);
      ForkPaths(p, included, path);
      assert FirstIn(path, 0, FoundSet(p));
      ForkReaches(p, included + {path[0]});
      ReachesOn(q, included, FoundSet(p), path, 0);
    } else {
      if v :| v in FoundSet(p) && v !in included {
        ForkPaths(p, included, [v, n + 1, n + 2]);
      }
      assert included == FoundSet(p);
    }
  }

  lemma ForkRoot(p: Problem)
    requires p.Valid()
    ensures var n := p.NodeCount(); LeastTargetWalk(Residual(Fork(p), {}), [n, n + 1, n + 2])
  {
    var n := p.NodeCount();
    var q := [n, n + 1, n + 2];
    var sources := Residual(Fork(p), {}).sources;
    assert sources[0] == n && IndexOf(sources, n) == 0;
    hide Fork;
    ForkPaths(p, {}, q);
    forall w | TargetWalk(Residual(Fork(p), {}), w) ensures AtMost(sources, q, w) {
      ForkPaths(p, {}, w);
      if w[0] == n {
        assert w == q;
      } else {
        assert w[0] in sources;
        assert DiffersFirstAt(sources, q, w, 0);
      }
    }
  }

  /** Every feasible set that branching arrives at holds the found set. */
  lemma ReachedHoldsFound(p: Problem, c: set<nat>)
    requires p.Valid() && Fork(p).Valid() && Overlaps(p) != {} && Overlaps(Fork(p)) == Overlaps(p)
    requires Feasible(Fork(p), c) && Reaches(Fork(p), {}, c)
    ensures FoundSet(p) <= c
  {
    hide Fork, Problem.Valid, Feasible, LeastTargetWalk, Residual, HasResidualPath, Reaches, Overlaps;
    var q, n := Fork(p), p.NodeCount();
    if !(Overlaps(q) <= c) { MissesOverlap(q, c); }
    if n !in c {
      ForkRoot(p);
      var path := [n, n + 1, n + 2];
      var i := FirstStep(q, c, path);
      ReachesOn(q, {}, c, path, i);
      assert {} + {path[i]} == {path[i]};
      DeadEnd(p, path[i], c);
    }
  }

  /** Taking the bottleneck or the obligation first leaves no path and no overlap contained. */
  lemma DeadEnd(p: Problem, v: nat, c: set<nat>)
    requires p.Valid() && Fork(p).Valid() && Overlaps(p) != {} && Overlaps(Fork(p)) == Overlaps(p)
    requires v == p.NodeCount() + 1 || v == p.NodeCount() + 2
    ensures !Reaches(Fork(p), {v}, c)
  {
    hide Fork, Problem.Valid, Feasible;
    forall w ensures !TargetWalk(Residual(Fork(p), {v}), w) { ForkPaths(p, {v}, w); }
    var o :| o in Overlaps(p);
    assert o < p.NodeCount() && o !in {v};
    MissesOverlap(Fork(p), {v});
  }

  lemma FirstStep(q: Problem, c: set<nat>, path: seq<nat>) returns (i: nat)
    requires q.Valid() && Reaches(q, {}, c) && LeastTargetWalk(Residual(q, {}), path)
    ensures FirstIn(path, i, c)
  {
    assert TargetWalk(Residual(q, {}), path);
    var other, j :| LeastTargetWalk(Residual(q, {}), other) && FirstIn(other, j, c);
    LeastTargetWalkUnique(Residual(q, {}), path, other);
    i := j;
  }

  /** Every answer the budget allows to complete calls the found set optimal. */
  lemma ForkAnswer(p: Problem, maxExplored: nat, s: CutSolution)
    requires p.Valid() && p.ObligationsSettled() && !p.OverlapSettled() && p.NodeCount() + 3 <= MAX_TOPOLOGY_NODES
    requires |p.sources| <= MAX_SOURCES && Fork(p).Valid()
    requires SolutionOk(Fork(p), maxExplored, s) && !s.budgetExhausted
    ensures s.status.ProvenOptimal? && Elements(s.members) == FoundSet(p)
    ensures !UniqueOptimum(Fork(p), Elements(s.members))
  {
    hide Fork, Problem.Valid, Feasible, Reaches, Problem.OverlapSettled, Overlaps;
    var q, found, b := Fork(p), FoundSet(p), Elements(s.members);
    ForkSurrounds(p);
    Unsettled(p);
    ForkFeasible(p);
    ForkReaches(p, {});
    ReachedHoldsFound(p, b);
    if b != found {
      FeasibleInRange(q, b);
      SupersetIsWorse(q, found, b, q.minimizeProtected);
      ObjectiveTransitive(ObjectiveOf(q, found), ObjectiveOf(q, b), ObjectiveOf(q, found), q.minimizeProtected);
      ObjectiveIrreflexive(ObjectiveOf(q, found), q.minimizeProtected);
    }
    FoundNotOptimal(p);
  }

  lemma FeasibleInRange(q: Problem, c: set<nat>)
    requires q.Valid() && Feasible(q, c)
    ensures forall v :: v in c ==> v < q.NodeCount()
  {
  }

  lemma FoundNotOptimal(p: Problem)
    requires p.Valid() && p.NodeCount() + 3 <= MAX_TOPOLOGY_NODES && Fork(p).Valid() && Feasible(Fork(p), MissedSet(p))
    ensures !UniqueOptimum(Fork(p), FoundSet(p))
  {
    var q, found, missed := Fork(p), FoundSet(p), MissedSet(p);
    MissedIsBetter(p, q.minimizeProtected);
    hide Fork, Problem.Valid, Feasible;
    assert p.NodeCount() in found && p.NodeCount() !in missed by {
      assert forall v :: v in Overlaps(p) ==> v < p.NodeCount();
    }
    if UniqueOptimum(q, found) {
      ObjectiveTransitive(ObjectiveOf(q, found), ObjectiveOf(q, missed), ObjectiveOf(q, found), q.minimizeProtected);
      ObjectiveIrreflexive(ObjectiveOf(q, found), q.minimizeProtected);
    }
  }

  /** Every answer within a budget that always suffices is a proof of optimality, and a wrong one. */
  ghost predicate AlwaysCalledOptimal(q: Problem)
    requires q.Valid()
  {
    forall m: nat, s :: m >= Sufficient(q) && SolutionOk(q, m, s) ==>
      s.status.ProvenOptimal? && !UniqueOptimum(q, Elements(s.members))
  }

  lemma ForkMisjudged(p: Problem)
    requires p.Valid() && p.ObligationsSettled() && !p.OverlapSettled() && p.NodeCount() + 3 <= MAX_TOPOLOGY_NODES
    requires |p.sources| <= MAX_SOURCES && Fork(p).Valid()
    ensures AlwaysCalledOptimal(Fork(p))
  {
    hide Fork, Problem.Valid, SolutionOk, UniqueOptimum, FoundSet;
    forall m: nat, s | m >= Sufficient(Fork(p)) && SolutionOk(Fork(p), m, s)
      ensures s.status.ProvenOptimal? && !UniqueOptimum(Fork(p), Elements(s.members))
    {
      SufficientCompletes(Fork(p), m, s);
      ForkAnswer(p, m, s);
    }
  }

  /** Whatever surrounds the nodes, every proof of optimality is right if and only if every overlap is
      mandatory or not containable. Otherwise on some graph no sufficient budget helps. */
  lemma OptimalVerdictsExact(p: Problem)
    requires p.Valid() && p.ObligationsSettled() && |p.sources| <= MAX_SOURCES && p.NodeCount() + 3 <= MAX_TOPOLOGY_NODES
    ensures p.OverlapSettled() <==>
      forall q: Problem, m: nat, s ::
        Surrounds(p, q) && SolutionOk(q, m, s) && s.status.ProvenOptimal? ==> UniqueOptimum(q, Elements(s.members))
    ensures !p.OverlapSettled() ==> exists q: Problem :: Surrounds(p, q) && AlwaysCalledOptimal(q)
  {
    if p.OverlapSettled() {
      forall q: Problem, m: nat, s | Surrounds(p, q) && SolutionOk(q, m, s) && s.status.ProvenOptimal?
        ensures UniqueOptimum(q, Elements(s.members))
      {
        SettledSurrounds(p, q);
      }
    } else {
      ForkSurrounds(p);
      ForkMisjudged(p);
      hide SolutionOk, Surrounds, UniqueOptimum, Fork, Sufficient;
      var s := AnswerExists(Fork(p), Sufficient(Fork(p)));
    }
  }
}
