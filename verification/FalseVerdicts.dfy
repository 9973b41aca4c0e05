/** The solvers themselves, called with budgets that suffice, on inputs where a verdict is false. */
module FalseVerdicts {
  import opened Collections
  import opened Containment
  import opened CutVerifier
  import opened ExactSolver
  import opened Minimality
  import opened HeuristicSolver
  import opened GreedyCondition
  import opened OverlapCondition
  import opened Necessity
  import opened Counterexamples

  /** Where a failed and protected node is neither mandatory nor barred, the solver proves a feasible instance
      with the same nodes infeasible. */
  method FalseInfeasible(p: Problem) returns (q: Problem, s: CutSolution)
    requires p.Valid() && p.ObligationsSettled() && !p.OverlapSettled() && |p.sources| <= MAX_SOURCES
    ensures Surrounds(p, q) && q.NodeCount() == p.NodeCount()
    ensures s.status.ProvenInfeasible? && !Infeasible(q)
  {
    hide Surrounds, Feasible, SolutionOk, Sufficient, Problem.Valid, Problem.OverlapSettled, Edgeless;
    q := Edgeless(p);
    EdgelessSurrounds(p);
    EdgelessFeasible(p);
    EdgelessSolvable(p);
    s := SolveExact(q, Sufficient(q));
    EdgelessAnswer(p, Sufficient(q), s);
  }

  /** And it proves optimal, among three nodes more, a set that a feasible one beats. */
  method FalseOptimum(p: Problem) returns (q: Problem, s: CutSolution)
    requires p.Valid() && p.ObligationsSettled() && !p.OverlapSettled() && |p.sources| <= MAX_SOURCES
    requires p.NodeCount() + 3 <= MAX_TOPOLOGY_NODES
    ensures Surrounds(p, q) && s.status.ProvenOptimal? && !UniqueOptimum(q, Elements(s.members))
  {
    hide Surrounds, UniqueOptimum, SolutionOk, Sufficient, Problem.Valid, Problem.OverlapSettled, FoundSet;
    q := Fork(p);
    ForkSurrounds(p);
    s := SolveExact(q, Sufficient(q));
    ForkAnswer(p, Sufficient(q), s);
  }

  /** With a trap among the containable nodes, the heuristic returns a set with a feasible proper subset. */
  method FalseMinimum(p: Problem, t: Trap) returns (q: Problem, s: CutSolution)
    requires p.Valid() && IsTrap(p, t) && p.NodeCount() + 3 <= MAX_TOPOLOGY_NODES
    ensures Carries(p, q) && s.status.FeasibleNotProvenOptimal? && !InclusionMinimal(q, Elements(s.members))
  {
    hide Carries, InclusionMinimal, HeuristicOk, GreedyList, Problem.Valid, IsTrap, Detour;
    q := Detour(p, t);
    DetourCarries(p, t);
    CarriesFacts(p, q);
    ghost var greedy;
    s, greedy := SolveHeuristic(q, q.NodeCount() + 1);
    assert Answers(q, q.NodeCount() + 1, s);
    DetourAnswer(p, t, q.NodeCount() + 1, s);
  }

  /** The witness of a proof of infeasibility, handed to its own checker. */
  method RefusedWitness() returns (s: CutSolution, accepted: bool)
    ensures s.status.ProvenInfeasible? && s.infeasibilityPath.Some? && !accepted
  {
    hide SolutionOk, Sufficient, Certificate, Problem.Valid;
    NoWeightValid();
    var p := NoWeight();
    s := SolveExact(p, Sufficient(p));
    WitnessRefused(Sufficient(p), s);
    WitnessInRange(s);
    accepted := VerifyInfeasibilityWitness(p, s.infeasibilityPath.value);
  }

  lemma WitnessInRange(s: CutSolution)
    requires NoWeight().Valid() && SolutionOk(NoWeight(), Sufficient(NoWeight()), s) && s.infeasibilityPath.Some?
    ensures forall i :: 0 <= i < |s.infeasibilityPath.value| ==> s.infeasibilityPath.value[i] < NoWeight().NodeCount()
  {
  }

  /** The analysis calls an obligation that every feasible set holds not necessary. */
  method FalseDispensable() returns (p: Problem, r: NecessityResult)
    ensures p.Valid() && Necessary(p, 1) && !Infeasible(p) && 1 in r.notNecessary
  {
    hide SolutionOk, Sufficient, Problem.Valid, Filed, VerdictsSound, Necessary, Infeasible, IsInstance;
    p := BareSource();
    BareSourceValid();
    BareSourceBuilt();
    BareSourceMisfiled();
    r := AnalyzeExhaustive(BareDefinition(), p.graph, BareRequest(), p, Sufficient(p));
    ObligationMisjudged(Sufficient(p), r);
  }
}
