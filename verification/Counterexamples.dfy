/** Inputs on which a documented promise fails, next to the condition under which it holds. */
module Counterexamples {
  import opened Collections
  import opened Resources
  import opened Sorting
  import opened Topologies
  import opened PropagationGraphs
  import opened BreadthFirst
  import opened Containment
  import opened ResidualPaths
  import opened CutVerifier
  import opened SearchBounds
  import opened ExactSolver
  import opened ExactAnswers
  import opened Minimality
  import opened HeuristicSolver
  import opened GreedyCondition
  import opened Instances
  import opened Necessity

  // ---------------------------------------------------------------------
  // A node that is failed and protected at once
  // ---------------------------------------------------------------------

  /** One node, failed and protected, containable by policy but not mandatory. */
  function LoneOverlap(): Problem {
    Problem(Graph([[]], [[]], [[]], {}), [0], [0], [], [0], ["a"], [true], [true], [true], [1],
      false, true, true, 10, 1)
  }

  function LoneDefinition(): Topology {
    Topology(1, [NodeSpec("a", true, 1, false, Complete)], [])
  }

  function LoneRequest(): InstanceSpec {
    InstanceSpec(["a"], ["a"], [], false, true, true, 10, 1)
  }

  /** A request that lists one node as source and as obligation is accepted and yields this instance. */
  lemma LoneOverlapBuilt()
    ensures LoneDefinition().Valid() && GraphOf(LoneDefinition(), LoneOverlap().graph)
    ensures SpecOk(LoneDefinition().nodes, LoneRequest())
    ensures BuiltFrom(LoneDefinition(), LoneOverlap().graph, LoneRequest(), LoneOverlap())
  {
    var t, p := LoneDefinition(), LoneOverlap();
    FindUnique(t.nodes, 0);
    hide Find;
    LoneOverlapValid();
    assert Indices(t.nodes, LoneRequest().failureSources) == [0];
    assert Indices(t.nodes, LoneRequest().forcedIneligible) == [];
  }

  /** The exact solver calls it infeasible although containing the node is feasible. */
  lemma OverlapMisjudged(maxExplored: nat, s: CutSolution)
    requires LoneOverlap().Valid() && SolutionOk(LoneOverlap(), maxExplored, s)
    ensures !LoneOverlap().OverlapSettled() && Feasible(LoneOverlap(), {0})
    ensures !s.budgetExhausted ==> s.status.ProvenInfeasible?
  {
    var p := LoneOverlap();
    assert p.IsOverlap(0) && p.IsEligible(0);
    SumSingleton(p.weights, 0);
    assert p.Mandatory() == {};
    assert !Connects(p, {0});
    assert TargetWalk(Propagation(p, {}), [0]);
    assert Residual(p, {}).targets == {};
  }

  lemma LoneOverlapValid()
    ensures LoneOverlap().Valid() && LoneOverlap().ObligationsSettled()
  {
    var p := LoneOverlap();
    assert Elements(p.sources) == {0} == Marked(p.isSource);
    assert Elements(p.protectedNodes) == {0} == Marked(p.isProtected);
  }

  // ---------------------------------------------------------------------
  // A stored witness that its own checker refuses
  // ---------------------------------------------------------------------

  /** A failure next to an obligation, both containable, and no weight allowed. */
  function NoWeight(): Problem {
    Problem(Graph([[1], []], [[], [0]], [[1], []], {}), [0], [1], [], [0, 1], ["a", "b"], [true, true], [false, true],
      [true, false], [1, 1], false, true, true, 0, 1)
  }

  lemma NoWeightValid()
    ensures NoWeight().Valid() && NoWeight().ObligationsSettled() && NoWeight().Mandatory() == {}
  {
    var p := NoWeight();
    assert Elements(p.sources) == {0} == Marked(p.isSource) by { assert p.sources[0] == 0; }
    assert Elements(p.protectedNodes) == {1} == Marked(p.isProtected) by { assert p.protectedNodes[0] == 1; }
    assert StrictlySorted(p.ids) by { assert LexLess((x: char, y: char) => x < y, "a", "b"); }
    assert p.graph.Valid();
  }

  lemma NoWeightInfeasible()
    requires NoWeight().Valid()
    ensures Infeasible(NoWeight())
  {
    var p := NoWeight();
    assert Link(p.graph.conservative, 0, 1);
    forall c ensures !Feasible(p, c) {
      if v :| v in c && v < 2 {
        SumRemove(p.weights, c, v);
      } else if c == {} {
        assert TargetWalk(Propagation(p, c), [0, 1]);
      }
    }
  }

  lemma NoWeightRoot()
    requires NoWeight().Valid()
    ensures LeastTargetWalk(Residual(NoWeight(), {}), [0, 1]) && RootOpen(NoWeight())
  {
    var p := NoWeight();
    var s := Residual(p, {});
    assert s.targets == {1} && s.sources == [0];
    assert Link(s.succ, 0, 1);
    assert TargetWalk(s, [0, 1]);
    forall w | TargetWalk(s, w) ensures AtMost(s.sources, [0, 1], w) {
      assert w[0] == 0;
      assert |w| > 1;
      WalkStep(s, w, 1);
      if |w| > 2 { WalkStep(s, w, 2); }
      assert w == [0, 1];
    }
    assert AllContainable(p, [0, 1]);
  }

  /** Every completed answer is a proof of infeasibility with a witness, and the checker refuses the witness. */
  lemma WitnessRefused(maxExplored: nat, s: CutSolution)
    requires NoWeight().Valid() && SolutionOk(NoWeight(), maxExplored, s) && !s.budgetExhausted
    ensures s.status.ProvenInfeasible? && s.infeasibilityPath.Some?
    ensures !Certificate(NoWeight(), s.infeasibilityPath.value)
  {
    hide Feasible, Problem.Valid, Certificate, WitnessOk, RootOpen;
    NoWeightValid();
    NoWeightInfeasible();
    NoWeightRoot();
    WitnessAcceptedExactly(NoWeight(), s.infeasibilityPath.value);
  }

  /** Every answer within a budget that always suffices stores a witness that the checker refuses. */
  ghost predicate AlwaysRefused(p: Problem)
    requires p.Valid()
  {
    forall m: nat, s :: m >= Sufficient(p) && SolutionOk(p, m, s) ==>
      s.infeasibilityPath.Some? && !Certificate(p, s.infeasibilityPath.value)
  }

  lemma NoWeightRefused()
    requires NoWeight().Valid()
    ensures AlwaysRefused(NoWeight())
  {
    hide SolutionOk, Certificate, Problem.Valid, NoWeight;
    forall m: nat, s | m >= Sufficient(NoWeight()) && SolutionOk(NoWeight(), m, s)
      ensures s.infeasibilityPath.Some? && !Certificate(NoWeight(), s.infeasibilityPath.value)
    {
      SufficientCompletes(NoWeight(), m, s);
      WitnessRefused(m, s);
    }
  }

  /** The stored witnesses are all accepted by the checker if and only if policy keeps obligations outside.
      Otherwise there is an instance on which no sufficient budget helps. */
  lemma WitnessesAcceptedExactly(allowProtected: bool)
    ensures !allowProtected <==>
      forall p: Problem, m: nat, s ::
        (p.Valid() && p.ObligationsSettled() && p.allowProtected == allowProtected && SolutionOk(p, m, s)
        && s.infeasibilityPath.Some?) ==> Certificate(p, s.infeasibilityPath.value)
    ensures allowProtected ==>
      exists p: Problem :: p.Valid() && p.ObligationsSettled() && p.allowProtected && AlwaysRefused(p)
  {
    hide Certificate, WitnessOk, BestReached, Feasible, RootOpen, Problem.Valid, Problem.ObligationsSettled;
    if allowProtected {
      NoWeightValid();
      NoWeightRefused();
      assert NoWeight().allowProtected;
      hide SolutionOk, Sufficient, NoWeight;
      var s := AnswerExists(NoWeight(), Sufficient(NoWeight()));
    } else {
      forall p: Problem, m: nat, s | p.Valid() && p.ObligationsSettled() && p.allowProtected == allowProtected
        && SolutionOk(p, m, s) && s.infeasibilityPath.Some? ensures Certificate(p, s.infeasibilityPath.value)
      {
        WitnessAcceptedExactly(p, s.infeasibilityPath.value);
      }
    }
  }

  // ---------------------------------------------------------------------
  // Lexicographic least paths
  // ---------------------------------------------------------------------

  ghost predicate LexicographicallyLeast(q: seq<nat>, r: seq<nat>) {
    |q| < |r| || (|q| == |r| && LexLess((x: nat, y: nat) => x < y, q, r))
  }

  /** The canonical path is the lexicographically smallest shortest path in every graph exactly when
      the sources are listed in ascending order. */
  lemma LexicographicExactly(sources: seq<nat>)
    requires Distinct(sources)
    ensures Ascending(sources) <==>
      forall s: Search, q, r :: s.sources == sources && LeastTargetWalk(s, q) && TargetWalk(s, r) && r != q ==>
        LexicographicallyLeast(q, r)
  {
    if Ascending(sources) {
      forall s: Search, q, r | s.sources == sources && LeastTargetWalk(s, q) && TargetWalk(s, r) && r != q
        ensures LexicographicallyLeast(q, r)
      {
        LeastIsLexicographic(s, q, r);
      }
    } else {
      var i, j :| 0 <= i < j < |sources| && sources[i] >= sources[j];
      TwoStar(sources, i, j);
      var s: Search, q, r :| Contradicts(sources, s, q, r);
    }
  }

  ghost predicate Contradicts(sources: seq<nat>, s: Search, q: seq<nat>, r: seq<nat>) {
    s.sources == sources && LeastTargetWalk(s, q) && TargetWalk(s, r) && r != q && !LexicographicallyLeast(q, r)
  }

  /** A node above every listed source. */
  function Above(s: seq<nat>): (t: nat)
    ensures forall i :: 0 <= i < |s| ==> s[i] < t
  {
    if s == [] then 0
    else
      var rest := Above(s[..|s| - 1]);
      if s[|s| - 1] < rest then rest else s[|s| - 1] + 1
  }

  /** Two sources in descending order with a common successor: the first listed wins, not the smaller. */
  lemma TwoStar(sources: seq<nat>, i: nat, j: nat)
    requires Distinct(sources) && i < j < |sources| && sources[i] >= sources[j]
    ensures exists s: Search, q, r :: Contradicts(sources, s, q, r)
  {
    var t := Above(sources);
    var a, b := sources[i], sources[j];
    var s := Star(sources, a, b);
    var q, r := [a, t], [b, t];
    StarWalks(sources, i, j);
    assert LeastTargetWalk(s, q) by {
      hide TargetWalk, AtMost;
      forall w | TargetWalk(s, w) ensures AtMost(sources, q, w) { StarOrder(sources, i, j, w); }
    }
    hide LeastTargetWalk, TargetWalk;
    assert !LexLess((x: nat, y: nat) => x < y, q, r);
    assert Contradicts(sources, s, q, r);
  }

  /** Every node below the top leads to it and nowhere else; only `a` and `b` are open. */
  function Star(sources: seq<nat>, a: nat, b: nat): Search {
    var t := Above(sources);
    Search(seq(t + 1, k => if k == t then [] else [t]), sources, Range(t) - {a, b}, {t})
  }

  lemma StarWalks(sources: seq<nat>, i: nat, j: nat)
    requires i < j < |sources|
    ensures var s, t := Star(sources, sources[i], sources[j]), Above(sources);
            TargetWalk(s, [sources[i], t]) && TargetWalk(s, [sources[j], t])
  {
    var s, t := Star(sources, sources[i], sources[j]), Above(sources);
    assert Link(s.succ, sources[i], t) && Link(s.succ, sources[j], t);
    hide Link, Above, TargetWalk;
    TwoNodeWalk(s, sources[i], t);
    TwoNodeWalk(s, sources[j], t);
  }

  lemma TwoNodeWalk(s: Search, v: nat, t: nat)
    requires v < |s.succ| && t < |s.succ| && v in s.sources && v !in s.removed && t !in s.removed && t in s.targets && Link(s.succ, v, t)
    ensures TargetWalk(s, [v, t])
  {
    hide Link;
    var w := [v, t];
    assert w[0] == v && w[1] == t;
  }

  lemma StarOrder(sources: seq<nat>, i: nat, j: nat, w: seq<nat>)
    requires Distinct(sources) && i < j < |sources|
    requires TargetWalk(Star(sources, sources[i], sources[j]), w)
    ensures AtMost(sources, [sources[i], Above(sources)], w)
  {
    var a, b, t := sources[i], sources[j], Above(sources);
    StarWalk(Star(sources, a, b), w, t);
    assert IndexOf(sources, a) == i && IndexOf(sources, b) == j;
    assert w == [w[0], t];
    if w[0] == b { assert DiffersFirstAt(sources, [a, t], w, 0); }
  }

  lemma StarWalk(s: Search, w: seq<nat>, t: nat)
    requires TargetWalk(s, w) && s.targets == {t} && |s.succ| == t + 1 && s.succ[t] == []
    requires forall k :: 0 <= k < t ==> s.succ[k] == [t]
    requires forall v :: v in s.sources ==> v < t
    ensures |w| == 2 && w[1] == t && w[0] !in s.removed && w[0] in s.sources
  {
    assert w[0] < t;
    assert |w| > 1;
    assert Link(s.succ, w[0], w[1]);
    assert forall x :: !Link(s.succ, t, x);
    if |w| > 2 { WalkStep(s, w, 2); }
  }

  // ---------------------------------------------------------------------
  // Necessity of an obligation
  // ---------------------------------------------------------------------

  /** A failed node that cannot be contained next to an obligation that can. */
  function BareSource(): Problem {
    Problem(Graph([[1], []], [[], [0]], [[1], []], {}), [0], [1], [], [0, 1], ["a", "b"], [false, true], [false, true],
      [true, false], [1, 1], true, true, true, 10, 2)
  }

  lemma BareSourceValid()
    ensures BareSource().Valid() && BareSource().ObligationsSettled() && BareSource().OverlapSettled()
  {
    var p := BareSource();
    assert Elements(p.sources) == {0} == Marked(p.isSource);
    assert Elements(p.protectedNodes) == {1} == Marked(p.isProtected);
    assert p.graph.Valid();
  }

  lemma BareSourceNeedsObligation()
    requires BareSource().Valid()
    ensures Necessary(BareSource(), 1) && Feasible(BareSource(), {1})
  {
    var p := BareSource();
    assert Link(p.graph.conservative, 0, 1);
    forall c | Feasible(p, c) ensures 1 in c {
      assert 0 !in c by { assert !p.IsEligible(0); }
      assert 1 !in c ==> TargetWalk(Propagation(p, c), [0, 1]);
    }
    assert p.Mandatory() == {};
    SumSingleton(p.weights, 1);
    assert !Connects(p, {1});
  }

  function BareDefinition(): Topology {
    Topology(1, [NodeSpec("a", false, 1, false, Complete), NodeSpec("b", false, 1, true, Complete)], [Edge(0, 1, Proven, 1)])
  }

  function BareRequest(): InstanceSpec {
    InstanceSpec(["a"], ["b"], [], true, true, true, 10, 2)
  }

  lemma BareDefinitionValid()
    ensures BareDefinition().Valid() && GraphOf(BareDefinition(), BareSource().graph)
  {
    var t := BareDefinition();
    assert LexLess((x: char, y: char) => x < y, "a", "b");
    assert StrictlySortedBy(NodeLess, t.nodes);
    forall classes, u: nat, v: nat ensures HasEdge(t.edges, classes, u, v) <==> Proven in classes && u == 0 && v == 1 {
      if Proven in classes && u == 0 && v == 1 { assert t.edges[0].from == 0; }
    }
  }

  lemma BareIndices()
    ensures var nodes := BareDefinition().nodes;
      && Find(nodes, "a") == Some(0) && Find(nodes, "b") == Some(1)
      && Indices(nodes, ["a"]) == [0] && Indices(nodes, ["b"]) == [1] && Indices(nodes, []) == []
  {
    var nodes := BareDefinition().nodes;
    BareDefinitionValid();
    FindUnique(nodes, 0);
    FindUnique(nodes, 1);
    hide Find;
    assert Indices(nodes, ["a"])[0] == 0 && Indices(nodes, ["b"])[0] == 1;
  }

  /** The builder produces the instance, with exactly its candidates. */
  lemma BareSourceBuilt()
    ensures IsInstance(BareDefinition(), BareSource().graph, BareRequest(), BareSource())
    ensures forall v: nat :: v in BareSource().candidates <==> v < BareSource().NodeCount() && IsCandidate(BareSource(), v)
  {
    BareDefinitionValid();
    BareSourceValid();
    BareIndices();
    hide Find, Indices, GraphOf, Topology.Valid, Graph.Valid, IsCandidate;
    BareSourceCandidates();
  }

  lemma BareSourceCandidates()
    requires BareSource().Valid()
    ensures IsCandidate(BareSource(), 0) && IsCandidate(BareSource(), 1)
  {
    var p, q := BareSource(), [0, 1];
    assert Link(p.graph.conservative, 0, 1);
    assert TargetWalk(Propagation(p, {}), q);
    OnWalkIsCandidate(p, {}, q, 0);
    OnWalkIsCandidate(p, {}, q, 1);
  }

  /** What an exhaustive analysis within the budget promises. */
  ghost predicate Analyzed(p: Problem, budget: nat, r: NecessityResult)
    requires p.Valid()
  {
    && VerdictsSound(p, r) && Filed(p, budget, r) && !r.exhausted
    && forall v: nat :: v in r.Verdicts() <==> v < p.NodeCount() && IsCandidate(p, v) && p.containable[v]
  }

  /** The obligation is in every feasible set, yet every completed exhaustive analysis files it under "not
      necessary": it cannot be barred, so solving again succeeds. */
  lemma ObligationMisjudged(budget: nat, r: NecessityResult)
    requires BareSource().Valid() && Analyzed(BareSource(), budget, r)
    ensures Necessary(BareSource(), 1) && 1 in r.notNecessary && 1 !in r.provenNecessary
  {
    hide Filed, Problem.Valid, Feasible, IsCandidate, VerdictsSound;
    BareSourceValid();
    BareSourceNeedsObligation();
    NecessaryIsCandidate(BareSource(), 1);
    assert !BareSource().IsMandatory(1);
    ObligationFiled(BareSource(), budget, r, 1);
  }

  /** Whatever the budget, a completed exhaustive analysis has the node under "not necessary" although it is in
      every feasible set. */
  ghost predicate AlwaysMisfiled(p: Problem, v: nat)
    requires p.Valid()
  {
    Necessary(p, v) && forall budget: nat, r :: Analyzed(p, budget, r) ==> v in r.notNecessary
  }

  lemma BareSourceMisfiled()
    requires BareSource().Valid()
    ensures AlwaysMisfiled(BareSource(), 1) && !Dispensable(BareSource(), 1) && !Infeasible(BareSource())
  {
    BareSourceNeedsObligation();
    hide Analyzed, BareSource, Problem.Valid, Feasible;
    forall budget: nat, r | Analyzed(BareSource(), budget, r) ensures 1 in r.notNecessary { ObligationMisjudged(budget, r); }
  }

  /** On a feasible instance with settled overlaps the verdict "not necessary" of a completed analysis is right
      for every subject if and only if policy keeps obligations outside. Otherwise there is an instance with a
      verdict that no budget corrects. */
  lemma NotNecessaryExactly(allowProtected: bool)
    ensures !allowProtected <==>
      forall p: Problem, budget: nat, r, v: nat ::
        (p.Valid() && p.ObligationsSettled() && p.OverlapSettled() && !Infeasible(p) && p.allowProtected == allowProtected
        && VerdictsSound(p, r) && Filed(p, budget, r) && !r.exhausted && v in r.notNecessary) ==> Dispensable(p, v)
    ensures allowProtected ==>
      exists p: Problem, v: nat :: p.Valid() && p.ObligationsSettled() && p.OverlapSettled() && !Infeasible(p)
        && p.allowProtected && AlwaysMisfiled(p, v)
  {
    hide Feasible, Problem.Valid, Infeasible, Dispensable, Problem.OverlapSettled, AlwaysMisfiled, Problem.ObligationsSettled;
    if allowProtected {
      FalseVerdict();
      BareSourceValid();
      BareSourceMisfiled();
      assert BareSource().allowProtected;
    } else {
      forall p: Problem, budget: nat, r, v: nat | p.Valid() && p.ObligationsSettled() && p.OverlapSettled()
        && !Infeasible(p) && p.allowProtected == allowProtected && VerdictsSound(p, r) && Filed(p, budget, r)
        && !r.exhausted && v in r.notNecessary ensures Dispensable(p, v)
      {
        PlainVerdict(p, r, v);
      }
    }
  }

  lemma PlainVerdict(p: Problem, r: NecessityResult, v: nat)
    requires p.Valid() && p.ObligationsSettled() && !Infeasible(p) && !p.allowProtected
    requires VerdictsSound(p, r) && v in r.notNecessary
    ensures Dispensable(p, v)
  {
    assert v in r.Verdicts();
    if !p.containable[v] { NotContainable(p, v); }
  }

  lemma FalseVerdict()
    ensures exists p: Problem, budget: nat, r, v: nat ::
      p.Valid() && p.ObligationsSettled() && p.OverlapSettled() && !Infeasible(p) && p.allowProtected
      && VerdictsSound(p, r) && Filed(p, budget, r) && !r.exhausted && v in r.notNecessary && !Dispensable(p, v)
  {
    hide Feasible, Problem.Valid, VerdictsSound, Filed, Dispensable, Infeasible, Problem.OverlapSettled, Problem.ObligationsSettled,
      Sufficient, AlwaysMisfiled;
    BareSourceValid();
    BareSourceMisfiled();
    BareSourceFiled();
    assert BareSource().allowProtected;
    assert 1 in NecessityResult([], [], [1], false).notNecessary;
  }

  /** The result of the analysis within a budget that suffices. */
  lemma BareSourceFiled()
    requires BareSource().Valid()
    ensures var p, r := BareSource(), NecessityResult([], [], [1], false);
      VerdictsSound(p, r) && Filed(p, Sufficient(p), r)
  {
    hide Feasible, Problem.Valid, SolutionOk, Resolved, Problem.OverlapSettled, Sufficient;
    BareSourceResolved();
  }

  /** Barring the obligation leaves the instance as it is, so solving again has the optimum. */
  lemma BareSourceResolved()
    requires BareSource().Valid()
    ensures Resolved(BareSource(), 1, Sufficient(BareSource()), {ProvenOptimal, FeasibleNotProvenOptimal}, false)
  {
    BareSourceValid();
    BareSourceNeedsObligation();
    hide Feasible, Problem.Valid, Sufficient, Reaches, BestReached, RootOpen, WitnessOk, Problem.OverlapSettled;
    var p := BareSource();
    var s := AnswerExists(p, Sufficient(p));
    assert s.status.ProvenOptimal?;
    assert BarredFrom(p, 1, p);
  }

  // ---------------------------------------------------------------------
  // Minimality of the heuristic
  // ---------------------------------------------------------------------

  /** Three routes from the failure 0 through the bottleneck 3 to the obligation 5. */
  function Bottleneck(): Problem {
    Problem(
      Graph([[1, 2, 4], [3], [3], [5], [3], []], [[], [0], [0], [1, 2, 4], [0], [3]], [[], [], [], [], [], []], {}),
      [0], [5], [], [], ["a", "b", "c", "d", "e", "f"], [false, true, true, true, false, false],
      [false, false, false, false, false, true], [true, false, false, false, false, false], [1, 1, 2, 3, 1, 1],
      false, false, true, 4, 6)
  }

  lemma BottleneckWalk(removed: set<nat>, w: seq<nat>)
    requires TargetWalk(Residual(Bottleneck(), removed), w) || TargetWalk(Propagation(Bottleneck(), removed), w)
    ensures |w| == 4 && w[0] == 0 && w[1] in {1, 2, 4} && w[2] == 3 && w[3] == 5
    ensures w[1] !in removed && 3 !in removed
  {
    var g := Bottleneck().graph.conservative;
    assert w[|w| - 1] == 5;
    assert |w| > 1;
    assert Link(g, w[1 - 1], w[1]);
    assert |w| > 2;
    assert Link(g, w[2 - 1], w[2]);
    assert |w| > 3;
    assert Link(g, w[3 - 1], w[3]);
    assert forall x :: !Link(g, 5, x);
    if |w| > 4 { WalkStep(Propagation(Bottleneck(), removed), w, 4); }
  }

  /** The route through `v` is the least residual path when the smaller ones are removed. */
  lemma BottleneckRoute(removed: set<nat>, v: nat)
    requires v in {1, 2, 4} && removed !! {0, v, 3, 5} && forall u :: u in {1, 2, 4} && u < v ==> u in removed
    ensures LeastTargetWalk(Residual(Bottleneck(), removed), [0, v, 3, 5])
  {
    var s := Residual(Bottleneck(), removed);
    var q := [0, v, 3, 5];
    assert s.targets == {5} by { assert 5 in Marked(Bottleneck().isProtected); }
    assert Link(s.succ, 0, v) && Link(s.succ, v, 3) && Link(s.succ, 3, 5);
    forall i | 0 < i < |q| ensures Link(s.succ, q[i - 1], q[i]) { assert i == 1 || i == 2 || i == 3; }
    forall w | TargetWalk(s, w) ensures AtMost(s.sources, q, w) {
      BottleneckWalk(removed, w);
      assert w == [0, w[1], 3, 5];
      if w[1] != v { assert DiffersFirstAt(s.sources, q, w, 1); }
    }
  }

  lemma BottleneckSums(c: set<nat>)
    ensures Weight(Bottleneck(), c) ==
      (if 0 in c then 1 else 0) + (if 1 in c then 1 else 0) + (if 2 in c then 2 else 0)
      + (if 3 in c then 3 else 0) + (if 4 in c then 1 else 0) + (if 5 in c then 1 else 0)
  {
    var w := Bottleneck().weights;
    assert w[..5][..4][..3][..2][..1][..0] == [];
    assert SumOver(w[..1], c) == if 0 in c then 1 else 0;
    assert w[..2][..1] == w[..1] && w[..3][..2] == w[..2] && w[..4][..3] == w[..3] && w[..5][..4] == w[..4];
    assert SumOver(w[..2], c) == SumOver(w[..1], c) + if 1 in c then 1 else 0;
    assert SumOver(w[..3], c) == SumOver(w[..2], c) + if 2 in c then 2 else 0;
    assert SumOver(w[..4], c) == SumOver(w[..3], c) + if 3 in c then 3 else 0;
    assert SumOver(w[..5], c) == SumOver(w[..4], c) + if 4 in c then 1 else 0;
  }

  lemma BottleneckGraph()
    ensures Bottleneck().graph.Valid()
  {
    var g := Bottleneck().graph;
    forall u, v | 0 <= u < 6 && 0 <= v < 6 ensures v in g.conservative[u] <==> u in g.conservativeIn[v] {
      assert u == 0 || u == 1 || u == 2 || u == 3 || u == 4 || u == 5;
      assert v == 0 || v == 1 || v == 2 || v == 3 || v == 4 || v == 5;
    }
  }

  lemma BottleneckIds()
    ensures StrictlySorted(Bottleneck().ids)
  {
    var ids := Bottleneck().ids;
    forall i, j | 0 <= i < j < |ids| ensures IdLess(ids[i], ids[j]) {
      assert |ids[i]| == |ids[j]| == 1 && ids[i][0] < ids[j][0];
    }
  }

  lemma BottleneckValid()
    ensures Bottleneck().Valid() && Bottleneck().Mandatory() == {}
  {
    hide Graph.Valid, StrictlySorted;
    var p := Bottleneck();
    BottleneckGraph();
    BottleneckIds();
    assert Elements(p.sources) == {0} == Marked(p.isSource);
    assert Elements(p.protectedNodes) == {5} == Marked(p.isProtected);
  }

  /** A set of containable nodes is feasible when it holds the bottleneck and stays within the weight. */
  lemma BottleneckFeasible(c: set<nat>)
    requires Bottleneck().Valid() && c <= {1, 2, 3}
    ensures Feasible(Bottleneck(), c) <==> (3 in c || c == {1, 2, 4}) && Weight(Bottleneck(), c) <= 4
  {
    var p := Bottleneck();
    BottleneckValid();
    SubsetCount(c, {1, 2, 3});
    assert AllEligible(p, c);
    if 3 in c {
      forall w ensures !TargetWalk(Propagation(p, c), w) {
        if TargetWalk(Propagation(p, c), w) { BottleneckWalk(c, w); }
      }
    } else {
      BottleneckRoute({1, 2}, 4);
      assert TargetWalk(Propagation(p, c), [0, 4, 3, 5]);
    }
  }

  /** The greedy list exceeds the weight bound, so the first deletion is refused for weight alone and
      never tried again: the pass ends in {1, 3} although {3} is feasible. */
  lemma BottleneckDropped()
    ensures Bottleneck().Valid() && GreedyList(Bottleneck(), [1, 2, 3], 0)
    ensures !HasResidualPath(Bottleneck(), {1, 2, 3})
    ensures ReverseDeletion(Bottleneck(), [1, 2, 3], 0) == [1, 3]
    ensures Feasible(Bottleneck(), {1, 3}) && Feasible(Bottleneck(), {3}) && !InclusionMinimal(Bottleneck(), {1, 3})
  {
    hide GreedyList, Feasible, Problem.Valid, HasResidualPath, Weight, ReverseDeletion, Bottleneck;
    BottleneckValid();
    BottleneckGreedy();
    BottleneckVerdict({1, 2, 3});
    BottleneckVerdict({2, 3});
    BottleneckVerdict({1, 3});
    BottleneckVerdict({1});
    BottleneckVerdict({3});
    assert {3} < {1, 3};
    BottleneckCut();
    BottleneckDeletion();
  }

  /** Every answer the budget allows to complete is the set {1, 3}, which is not minimal. */
  lemma HeuristicNotMinimal(maxIterations: nat, s: CutSolution)
    requires Bottleneck().Valid() && Answers(Bottleneck(), maxIterations, s) && !s.budgetExhausted
    ensures s.status.FeasibleNotProvenOptimal? && s.members == [1, 3]
    ensures Feasible(Bottleneck(), {3}) && !InclusionMinimal(Bottleneck(), Elements(s.members))
  {
    BottleneckDropped();
    hide GreedyList, Feasible, Problem.Valid, HasResidualPath, ReverseDeletion, Bottleneck, InclusionMinimal;
    var p := Bottleneck();
    var greedy, start :| GreedyList(p, greedy, start) && HeuristicOk(p, maxIterations, s, greedy);
    ElementsOfTwo(1, 3);
    BottleneckRun(greedy, start);
  }

  lemma BottleneckRun(greedy: seq<nat>, start: nat)
    requires Bottleneck().Valid() && GreedyList(Bottleneck(), greedy, start)
    requires !HasResidualPath(Bottleneck(), Elements(greedy)) && !HasResidualPath(Bottleneck(), {1, 2, 3})
    requires GreedyList(Bottleneck(), [1, 2, 3], 0)
    ensures Sorted(greedy) == [1, 2, 3]
  {
    hide GreedyList, Problem.Valid, HasResidualPath, Bottleneck, Sorted;
    var other: seq<nat> := [1, 2, 3];
    assert Elements(other) == {1, 2, 3} by { assert other[0] == 1 && other[1] == 2 && other[2] == 3; }
    GreedyDetermined(Bottleneck(), greedy, start, other, 0);
    GreedyDistinct(Bottleneck(), greedy, start);
    DistinctSorted(greedy);
    AscendingUnique(Sorted(greedy), other);
  }

  lemma BottleneckVerdict(c: set<nat>)
    requires Bottleneck().Valid() && c in {{1, 2, 3}, {2, 3}, {1, 3}, {1}, {3}}
    ensures Feasible(Bottleneck(), c) <==> c == {1, 3} || c == {3}
  {
    hide Feasible, Problem.Valid;
    BottleneckFeasible(c);
    BottleneckSums(c);
  }

  lemma BottleneckCut()
    ensures !HasResidualPath(Bottleneck(), {1, 2, 3})
  {
    forall w ensures !TargetWalk(Residual(Bottleneck(), {1, 2, 3}), w) {
      if TargetWalk(Residual(Bottleneck(), {1, 2, 3}), w) { BottleneckWalk({1, 2, 3}, w); }
    }
  }

  lemma BottleneckDeletion()
    requires Bottleneck().Valid() && Bottleneck().Mandatory() == {}
    requires !Feasible(Bottleneck(), {2, 3}) && Feasible(Bottleneck(), {1, 3}) && !Feasible(Bottleneck(), {1})
    ensures ReverseDeletion(Bottleneck(), [1, 2, 3], 0) == [1, 3]
  {
    hide Feasible, Problem.Valid;
    var p := Bottleneck();
    ElementsOfTwo(2, 3);
    ElementsOfTwo(1, 3);
    assert WithoutIndex([1, 2, 3], 0) == [2, 3];
    DeletionStep(p, [1, 2, 3], 0, [2, 3], {2, 3});
    assert WithoutIndex([1, 2, 3], 1) == [1, 3];
    DeletionStep(p, [1, 2, 3], 1, [1, 3], {1, 3});
    assert WithoutIndex([1, 3], 1) == [1];
    DeletionStep(p, [1, 3], 1, [1], {1});
    DeletionEnds(p, [1, 3]);
  }

  lemma ElementsOfTwo(x: nat, y: nat)
    ensures Elements([x, y]) == {x, y} && Elements([x]) == {x}
  {
    assert [x, y][0] == x && [x, y][1] == y && [x][0] == x;
  }

  /** One step of the deletion pass on a plain member. */
  lemma DeletionStep(p: Problem, members: seq<nat>, i: nat, trial: seq<nat>, c: set<nat>)
    requires p.Valid() && (forall j :: 0 <= j < |members| ==> members[j] < p.NodeCount()) && i < |members|
    requires p.Mandatory() == {} && trial == WithoutIndex(members, i) && c == Elements(trial)
    ensures ReverseDeletion(p, members, i) ==
      if Feasible(p, c) then ReverseDeletion(p, trial, i) else ReverseDeletion(p, members, i + 1)
  {
    assert p.IsMandatory(members[i]) <==> members[i] in p.Mandatory();
  }

  lemma DeletionEnds(p: Problem, members: seq<nat>)
    requires p.Valid() && forall j :: 0 <= j < |members| ==> members[j] < p.NodeCount()
    ensures ReverseDeletion(p, members, |members|) == members
  {
  }

  lemma BottleneckPick(v: nat, pick: nat)
    requires Bottleneck().Valid() && v in {1, 2, 4} && pick == if v == 4 then 3 else v
    ensures GreedyPick(Bottleneck(), [0, v, 3, 5], pick)
  {
    hide Problem.Valid;
    var path := [0, v, 3, 5];
    assert path[0] == 0 && path[1] == v && path[2] == 3 && path[3] == 5;
    assert pick in path;
  }

  lemma BottleneckStep(removed: seq<nat>, v: nat, pick: nat)
    requires Bottleneck().Valid() && v in {1, 2, 4} && pick == if v == 4 then 3 else v
    requires Elements(removed) !! {0, v, 3, 5} && forall u :: u in {1, 2, 4} && u < v ==> u in Elements(removed)
    ensures GreedyStep(Bottleneck(), removed, pick)
  {
    hide Problem.Valid, LeastTargetWalk, GreedyPick;
    BottleneckRoute(Elements(removed), v);
    BottleneckPick(v, pick);
  }

  lemma BottleneckGreedy()
    requires Bottleneck().Valid() && Bottleneck().Mandatory() == {}
    ensures GreedyList(Bottleneck(), [1, 2, 3], 0)
  {
    hide Problem.Valid, GreedyStep;
    var m := [1, 2, 3];
    assert m[..0] == [] && m[..1] == [1] && m[..2] == [1, 2];
    assert Elements(m[..0]) == {} && Elements(m[..1]) == {1} && Elements(m[..2]) == {1, 2};
    BottleneckStep(m[..0], 1, 1);
    BottleneckStep(m[..1], 2, 2);
    BottleneckStep(m[..2], 4, 3);
    forall k | 0 <= k < 3 ensures GreedyStep(Bottleneck(), m[..k], m[k]) {
      assert k == 0 || k == 1 || k == 2;
    }
  }
}
