/** The planner's solve section: dispatch, minimality restoration, witnesses and claim strength. */
module Planner {
  import opened Collections
  import opened Topologies
  import opened BreadthFirst
  import opened Reachability
  import opened Containment
  import opened ResidualPaths
  import opened CutVerifier
  import opened SearchBounds
  import opened ExactSolver
  import opened Minimality
  import opened HeuristicSolver
  import opened Instances

  datatype Currency = Current | Stale | IncompleteFrontier
  datatype Claim = ProvenContainment | ProvenFeasibleNotMinimal | IndeterminateClaim | InfeasibleClaim | InvalidClaim
  datatype Feasibility = FeasibilityProven | FeasibilityUnknown | InfeasibilityProven
  datatype Optimality = OptimalityProven | BoundedNotProven | NotAttempted | NotApplicable

  /** A boundary member and the path that shows it is load-bearing (empty when there is none). */
  datatype PlanMember = PlanMember(node: nat, weight: nat, protectedObligation: bool, witnessPath: seq<nat>)

  datatype Plan = Plan(
    claim: Claim, feasibility: Feasibility, optimality: Optimality,
    members: seq<PlanMember>, infeasibilityPath: Option<seq<nat>>, budgetExhausted: bool, heuristicUsed: bool)

  datatype PlanResult = Planned(plan: Plan) | WitnessTooLong

  function Nodes(members: seq<PlanMember>): (r: seq<nat>)
    ensures |r| == |members| && forall i :: 0 <= i < |r| ==> r[i] == members[i].node
  {
    seq(|members|, i requires 0 <= i < |members| => members[i].node)
  }

  /** Sources policy demands but eligibility forbids. */
  predicate HasUncontainableSource(p: Problem) {
    exists i :: 0 <= i < |p.sources| && p.sources[i] < |p.containable| && !p.containable[p.sources[i]]
  }

  /** A path around all other members, through this one. */
  ghost predicate Witnessed(p: Problem, c: set<nat>, m: PlanMember)
    requires p.Valid()
  {
    && LeastTargetWalk(Residual(p, c - {m.node}), m.witnessPath)
    && m.node in m.witnessPath
    && (forall v :: v in m.witnessPath && v != m.node ==> v !in c)
  }

  /** A member's witness is missing exactly when no residual path is left around the others, which happens
      only for a mandatory member or one that is failed and protected at once. */
  ghost predicate MemberOk(p: Problem, c: set<nat>, m: PlanMember)
    requires p.Valid()
  {
    && m.node < p.NodeCount() && m.weight == p.weights[m.node] && m.protectedObligation == p.isProtected[m.node]
    && (m.witnessPath == [] <==> !HasResidualPath(p, c - {m.node}))
    && (m.witnessPath == [] ==> p.IsMandatory(m.node) || p.IsOverlap(m.node))
    && (m.witnessPath != [] ==> Witnessed(p, c, m))
  }

  /** Adjacency is believed complete on everything the failures can reach. */
  ghost predicate FrontierComplete(t: Topology, p: Problem) {
    forall v: nat :: v < |t.nodes| && Reachable(Forward(p), v) ==> t.nodes[v].completeness.Complete?
  }

  /** What a plan asserts, axis by axis. */
  ghost predicate PlanOk(t: Topology, p: Problem, currency: Currency, plan: Plan)
    requires p.Valid()
  {
    var c := Elements(Nodes(plan.members));
    && (plan.feasibility.FeasibilityProven? ==>
          && Ascending(Nodes(plan.members)) && Feasible(p, c)
          && forall i :: 0 <= i < |plan.members| ==> MemberOk(p, c, plan.members[i]))
    && (plan.feasibility.FeasibilityProven? ==> InclusionMinimal(p, c))
    && (p.OverlapSettled() && plan.optimality.OptimalityProven? ==> UniqueOptimum(p, c))
    && (plan.feasibility.InfeasibilityProven? <==> plan.claim.InfeasibleClaim?)
    && (plan.feasibility.FeasibilityProven? <==> plan.optimality.OptimalityProven? || plan.optimality.BoundedNotProven?)
    && (plan.optimality.OptimalityProven? || plan.feasibility.InfeasibilityProven? <== !plan.budgetExhausted && !plan.heuristicUsed)
    && (plan.feasibility.InfeasibilityProven? && (p.OverlapSettled() || plan.heuristicUsed) ==> Infeasible(p))
    && (plan.infeasibilityPath.Some? ==>
          plan.claim.InfeasibleClaim? && TargetWalk(Residual(p, {}), plan.infeasibilityPath.value))
    && (plan.claim.ProvenContainment? <==> plan.optimality.OptimalityProven? && Claimable(t, p, currency))
    && (plan.claim.ProvenFeasibleNotMinimal? <==> plan.optimality.BoundedNotProven? && Claimable(t, p, currency))
    && (Claimable(t, p, currency) && plan.feasibility.FeasibilityProven? && p.requireSources ==>
          forall v :: v in p.sources ==> v in c)
  }

  /** What the dispatched solver promises of a solution. */
  ghost predicate Solved(p: Problem, exactBudget: nat, heuristicBudget: nat, nodeLimit: nat, s: CutSolution)
    requires p.Valid()
  {
    if |p.candidates| <= nodeLimit then SolutionOk(p, exactBudget, s) else Answers(p, heuristicBudget, s)
  }

  /** The plan reports this solution: the same outcome, its set after the deletion pass, its witness, its budget. */
  ghost predicate PlanOf(p: Problem, nodeLimit: nat, s: CutSolution, plan: Plan)
    requires p.Valid() && forall i :: 0 <= i < |s.members| ==> s.members[i] < p.NodeCount()
  {
    && Nodes(plan.members) == (if s.HasSolution() then ReverseDeletion(p, s.members, 0) else [])
    && (plan.feasibility.FeasibilityProven? <==> s.HasSolution())
    && (plan.feasibility.InfeasibilityProven? <==> s.status.ProvenInfeasible?)
    && (plan.optimality.OptimalityProven? <==> s.status.ProvenOptimal?)
    && (plan.optimality.BoundedNotProven? <==> s.status.FeasibleNotProvenOptimal?)
    && (plan.optimality.NotApplicable? <==> s.status.ProvenInfeasible?)
    && (plan.claim.InfeasibleClaim? <==> s.status.ProvenInfeasible?) && !plan.claim.InvalidClaim?
    && plan.infeasibilityPath == s.infeasibilityPath && plan.budgetExhausted == s.budgetExhausted
    && (plan.heuristicUsed <==> |p.candidates| > nodeLimit)
  }

  /** No plan comes of the solution exactly when the witness of some member of the restored set is too long. */
  ghost predicate Overlong(p: Problem, s: CutSolution)
    requires p.Valid() && forall i :: 0 <= i < |s.members| ==> s.members[i] < p.NodeCount()
  {
    var c := Elements(ReverseDeletion(p, s.members, 0));
    s.HasSolution() && exists v, path :: v in c && LeastTargetWalk(Residual(p, c - {v}), path) && |path| > MAX_CERTIFICATE_NODES
  }

  /** Some solution of the dispatched solver decides the result. */
  ghost predicate Reported(p: Problem, exactBudget: nat, heuristicBudget: nat, nodeLimit: nat, r: PlanResult)
    requires p.Valid()
  {
    exists s :: Solved(p, exactBudget, heuristicBudget, nodeLimit, s)
      && (forall i :: 0 <= i < |s.members| ==> s.members[i] < p.NodeCount())
      && (r.WitnessTooLong? <==> Overlong(p, s))
      && (r.Planned? ==> PlanOf(p, nodeLimit, s, r.plan))
  }

  /** The evidence is current, the frontier complete, and no required source is out of reach. */
  ghost predicate Claimable(t: Topology, p: Problem, currency: Currency) {
    currency.Current? && FrontierComplete(t, p) && !(p.requireSources && HasUncontainableSource(p))
  }

  /** Exact search up to the candidate limit, the heuristic above it. */
  method Solve(p: Problem, exactBudget: nat, heuristicBudget: nat, nodeLimit: nat) returns (solution: CutSolution)
    requires p.Valid() && p.NodeCount() > 0 && p.sources != [] && p.protectedNodes != []
    ensures SolveOk(p, solution) && Solved(p, exactBudget, heuristicBudget, nodeLimit, solution)
    ensures |p.candidates| > nodeLimit && solution.status.ProvenInfeasible? ==> Infeasible(p)
    ensures exactBudget >= Sufficient(p) && heuristicBudget > p.NodeCount() ==> !solution.budgetExhausted
    ensures |p.candidates| <= nodeLimit && !solution.budgetExhausted ==>
      solution.status.ProvenOptimal? || solution.status.ProvenInfeasible?
  {
    if |p.candidates| <= nodeLimit {
      solution := SolveExact(p, exactBudget);
      ExactSolves(p, exactBudget, solution);
    } else {
      ghost var greedy;
      solution, greedy := SolveHeuristic(p, heuristicBudget);
      HeuristicSolves(p, heuristicBudget, solution, greedy);
    }
  }

  /** What either solver guarantees. */
  ghost predicate SolveOk(p: Problem, s: CutSolution)
    requires p.Valid()
  {
    && !s.status.InvalidProblem?
    && (s.HasSolution() ==> Ascending(s.members) && Feasible(p, Elements(s.members)))
    && (p.OverlapSettled() && s.status.ProvenOptimal? ==> UniqueOptimum(p, Elements(s.members)))
    && (p.OverlapSettled() && s.status.ProvenInfeasible? ==> Infeasible(p))
    && (s.infeasibilityPath.Some? ==> s.status.ProvenInfeasible? && TargetWalk(Residual(p, {}), s.infeasibilityPath.value))
    && (!s.HasSolution() ==> s.members == [])
  }

  lemma ExactSolves(p: Problem, budget: nat, s: CutSolution)
    requires p.Valid() && SolutionOk(p, budget, s)
    ensures SolveOk(p, s)
  {
  }

  lemma HeuristicSolves(p: Problem, budget: nat, s: CutSolution, greedy: seq<nat>)
    requires p.Valid() && HeuristicOk(p, budget, s, greedy)
    ensures SolveOk(p, s) && (s.status.ProvenInfeasible? ==> Infeasible(p))
  {
    if s.status.ProvenInfeasible? { BarrenRefutes(p, Elements(greedy), s.infeasibilityPath.value); }
  }

  /** Solves, restores minimality, attaches witnesses and selects the claim. */
  method SolvePlan(t: Topology, p: Problem, currency: Currency, exactBudget: nat, heuristicBudget: nat, nodeLimit: nat)
    returns (r: PlanResult)
    requires p.Valid() && |t.nodes| == p.NodeCount() > 0 && p.sources != [] && p.protectedNodes != []
    ensures r.Planned? ==> PlanOk(t, p, currency, r.plan)
    ensures r.WitnessTooLong? ==> p.NodeCount() > MAX_CERTIFICATE_NODES
    ensures Reported(p, exactBudget, heuristicBudget, nodeLimit, r)
    ensures exactBudget >= Sufficient(p) && heuristicBudget > p.NodeCount() && r.Planned? ==> !r.plan.budgetExhausted
  {
    hide PlanOk, PlanOf, Overlong, Solved, Sufficient, FrontierComplete, Feasible, Problem.Valid, SolveOk;
    var complete := CheckFrontier(t, p);
    var current := currency.Current? && complete;
    var solution := Solve(p, exactBudget, heuristicBudget, nodeLimit);
    var exhausted, heuristic := solution.budgetExhausted, |p.candidates| > nodeLimit;
    match solution.status {
      case ProvenInfeasible =>
        r := Planned(Plan(InfeasibleClaim, InfeasibilityProven, NotApplicable, [],
          solution.infeasibilityPath, exhausted, heuristic));
        PlanWithoutSet(t, p, currency, nodeLimit, solution, r.plan);
      case LimitReachedNoSolution =>
        r := Planned(Plan(IndeterminateClaim, FeasibilityUnknown, NotAttempted, [], None, exhausted, heuristic));
        PlanWithoutSet(t, p, currency, nodeLimit, solution, r.plan);
      case InvalidProblem =>
        r := Planned(Plan(InvalidClaim, FeasibilityUnknown, NotAttempted, [], None, exhausted, heuristic));
        NeverInvalid(p, solution);
      case _ =>
        r := PlanFeasible(t, p, currency, current, nodeLimit, solution, heuristic);
    }
  }

  lemma NeverInvalid(p: Problem, s: CutSolution)
    requires p.Valid() && SolveOk(p, s)
    ensures !s.status.InvalidProblem?
  {
  }

  /** Without a set the plan says just what the status says. */
  lemma PlanWithoutSet(t: Topology, p: Problem, currency: Currency, nodeLimit: nat, s: CutSolution, plan: Plan)
    requires p.Valid() && SolveOk(p, s) && !s.HasSolution()
    requires |p.candidates| > nodeLimit && s.status.ProvenInfeasible? ==> Infeasible(p)
    requires |p.candidates| <= nodeLimit && !s.budgetExhausted ==> s.status.ProvenInfeasible?
    requires plan.budgetExhausted == s.budgetExhausted && (plan.heuristicUsed <==> |p.candidates| > nodeLimit)
    requires plan.members == [] && plan.infeasibilityPath == s.infeasibilityPath
    requires if s.status.ProvenInfeasible?
      then plan.claim.InfeasibleClaim? && plan.feasibility.InfeasibilityProven? && plan.optimality.NotApplicable?
      else plan.claim.IndeterminateClaim? && plan.feasibility.FeasibilityUnknown? && plan.optimality.NotAttempted?
    ensures PlanOk(t, p, currency, plan) && s.members == [] && PlanOf(p, nodeLimit, s, plan) && !Overlong(p, s)
  {
    hide Feasible, Problem.Valid, FrontierComplete;
  }

  method CheckFrontier(t: Topology, p: Problem) returns (complete: bool)
    requires p.Valid() && |t.nodes| == p.NodeCount()
    ensures complete <==> FrontierComplete(t, p)
  {
    var none := seq(p.NodeCount(), _ => false);
    assert Marked(none) == {};
    PropagationShape(p);
    var met, frontier := Flood(p.graph.conservative, p.sources, none, none);
    NoTargets(Forward(p));
    for v := 0 to |t.nodes|
      invariant forall u: nat :: u < v && Reachable(Forward(p), u) ==> t.nodes[u].completeness.Complete?
    {
      if frontier[v] && !t.nodes[v].completeness.Complete? { return false; }
    }
    complete := true;
  }

  method PlanFeasible(t: Topology, p: Problem, currency: Currency, current: bool, ghost nodeLimit: nat, solution: CutSolution,
      heuristic: bool) returns (r: PlanResult)
    requires p.Valid() && solution.HasSolution() && SolveOk(p, solution)
    requires current <==> currency.Current? && FrontierComplete(t, p)
    requires heuristic <==> |p.candidates| > nodeLimit
    requires !solution.budgetExhausted && !heuristic ==> solution.status.ProvenOptimal?
    ensures r.Planned? ==> PlanOk(t, p, currency, r.plan)
    ensures r.WitnessTooLong? ==> p.NodeCount() > MAX_CERTIFICATE_NODES
    ensures forall i :: 0 <= i < |solution.members| ==> solution.members[i] < p.NodeCount()
    ensures r.WitnessTooLong? <==> Overlong(p, solution)
    ensures r.Planned? ==> PlanOf(p, nodeLimit, solution, r.plan) && r.plan.budgetExhausted == solution.budgetExhausted
  {
    hide Feasible, InclusionMinimal, UniqueOptimum, ReverseDeletion, MemberOk, FrontierComplete, HasUncontainableSource,
      Infeasible, Problem.Valid, Problem.OverlapSettled, Overlong;
    FeasibleRange(p, solution.members);
    var restored := RestoreMinimality(p, solution.members);
    DeletionMinimal(p, solution);
    FeasibleRange(p, restored);
    var members := AttachWitnesses(p, restored);
    for i := 0 to |members|
      invariant forall j :: 0 <= j < i ==> |members[j].witnessPath| <= MAX_CERTIFICATE_NODES
    {
      if |members[i].witnessPath| > MAX_CERTIFICATE_NODES {
        WitnessBounded(p, Elements(restored), members[i]);
        OverlongFound(p, solution, members[i]);
        return WitnessTooLong;
      }
    }
    assert Nodes(members) == restored;
    NotOverlong(p, solution, members);
    var optimal := solution.status.ProvenOptimal?;
    var blocked := FindUncontainable(p);
    var claim := if !current then IndeterminateClaim
                 else if p.requireSources && blocked then IndeterminateClaim
                 else if !optimal then ProvenFeasibleNotMinimal
                 else ProvenContainment;
    SourcesInside(p, Elements(restored));
    r := Planned(Plan(claim, FeasibilityProven, if optimal then OptimalityProven else BoundedNotProven, members,
      None, solution.budgetExhausted, heuristic));
  }

  lemma OverlongFound(p: Problem, s: CutSolution, m: PlanMember)
    requires p.Valid() && s.HasSolution() && forall i :: 0 <= i < |s.members| ==> s.members[i] < p.NodeCount()
    requires var c := Elements(ReverseDeletion(p, s.members, 0)); m.node in c && MemberOk(p, c, m)
    requires |m.witnessPath| > MAX_CERTIFICATE_NODES
    ensures Overlong(p, s)
  {
    hide ReverseDeletion, LeastTargetWalk, HasResidualPath;
    assert Witnessed(p, Elements(ReverseDeletion(p, s.members, 0)), m);
  }

  lemma NotOverlong(p: Problem, s: CutSolution, members: seq<PlanMember>)
    requires p.Valid() && s.HasSolution() && forall i :: 0 <= i < |s.members| ==> s.members[i] < p.NodeCount()
    requires Nodes(members) == ReverseDeletion(p, s.members, 0)
    requires forall i :: 0 <= i < |members| ==>
      MemberOk(p, Elements(Nodes(members)), members[i]) && |members[i].witnessPath| <= MAX_CERTIFICATE_NODES
    ensures !Overlong(p, s)
  {
    hide ReverseDeletion, LeastTargetWalk;
    var c := Elements(Nodes(members));
    forall v, path | v in c && LeastTargetWalk(Residual(p, c - {v}), path) ensures |path| <= MAX_CERTIFICATE_NODES {
      var i :| 0 <= i < |members| && Nodes(members)[i] == v;
      LeastIsResidual(p, c - {v}, path);
      LeastTargetWalkUnique(Residual(p, c - {v}), path, members[i].witnessPath);
    }
  }

  lemma LeastIsResidual(p: Problem, removed: set<nat>, path: seq<nat>)
    requires LeastTargetWalk(Residual(p, removed), path)
    ensures HasResidualPath(p, removed)
  {
    assert TargetWalk(Residual(p, removed), path);
  }

  lemma WitnessBounded(p: Problem, c: set<nat>, m: PlanMember)
    requires p.Valid() && MemberOk(p, c, m)
    ensures |m.witnessPath| <= p.NodeCount()
  {
    if m.witnessPath != [] { CountBounded(m.witnessPath, p.NodeCount()); }
  }

  lemma FeasibleRange(p: Problem, members: seq<nat>)
    requires p.Valid() && Feasible(p, Elements(members))
    ensures forall i :: 0 <= i < |members| ==> members[i] < p.NodeCount() && p.IsEligible(members[i])
  {
    assert forall i :: 0 <= i < |members| ==> members[i] in Elements(members);
  }

  lemma DeletionMinimal(p: Problem, solution: CutSolution)
    requires p.Valid() && solution.HasSolution() && SolveOk(p, solution)
    requires forall i :: 0 <= i < |solution.members| ==> solution.members[i] < p.NodeCount()
    ensures var r := ReverseDeletion(p, solution.members, 0);
      && Ascending(r) && Feasible(p, Elements(r)) && InclusionMinimal(p, Elements(r))
      && (p.OverlapSettled() && solution.status.ProvenOptimal? ==> r == solution.members)
  {
    var r := ReverseDeletion(p, solution.members, 0);
    DeletionBears(p, solution.members, 0);
    forall v | v in Elements(r) ensures Bears(p, Elements(r), v) { assert v in r; }
    BearsMeansMinimal(p, Elements(r));
    if p.OverlapSettled() && solution.status.ProvenOptimal? { OptimumUnchanged(p, solution.members); }
  }

  method FindUncontainable(p: Problem) returns (found: bool)
    requires p.Valid()
    ensures found <==> HasUncontainableSource(p)
  {
    PropagationShape(p);
    for i := 0 to |p.sources|
      invariant forall j :: 0 <= j < i ==> p.containable[p.sources[j]]
    {
      if !p.containable[p.sources[i]] { return true; }
    }
    found := false;
  }

  /** With every source containable, source inclusion puts all of them inside. */
  lemma SourcesInside(p: Problem, c: set<nat>)
    requires p.Valid() && Feasible(p, c)
    ensures p.requireSources && !HasUncontainableSource(p) ==> forall v :: v in p.sources ==> v in c
  {
    PropagationShape(p);
    forall v | v in p.sources && p.requireSources && !HasUncontainableSource(p) ensures v in c {
      var i :| 0 <= i < |p.sources| && p.sources[i] == v;
      assert v in p.Mandatory();
    }
  }

  /** For each member, a shortest path that survives removing every other member. */
  method AttachWitnesses(p: Problem, nodes: seq<nat>) returns (members: seq<PlanMember>)
    requires p.Valid() && Ascending(nodes) && Feasible(p, Elements(nodes))
    requires InclusionMinimal(p, Elements(nodes))
    requires forall i :: 0 <= i < |nodes| ==> nodes[i] < p.NodeCount() && p.IsEligible(nodes[i])
    ensures |members| == |nodes| && forall i :: 0 <= i < |nodes| ==> members[i].node == nodes[i]
    ensures forall i :: 0 <= i < |members| ==> MemberOk(p, Elements(nodes), members[i])
  {
    members := [];
    for i := 0 to |nodes|
      invariant |members| == i && forall j :: 0 <= j < i ==> members[j].node == nodes[j] && MemberOk(p, Elements(nodes), members[j])
    {
      var member := WitnessFor(p, nodes, i);
      members := members + [member];
    }
  }

  method WitnessFor(p: Problem, nodes: seq<nat>, i: nat) returns (member: PlanMember)
    requires p.Valid() && Ascending(nodes) && Feasible(p, Elements(nodes)) && i < |nodes|
    requires InclusionMinimal(p, Elements(nodes))
    requires forall i :: 0 <= i < |nodes| ==> nodes[i] < p.NodeCount() && p.IsEligible(nodes[i])
    ensures member.node == nodes[i] && MemberOk(p, Elements(nodes), member)
  {
    hide Feasible, InclusionMinimal, Problem.OverlapSettled, HasResidualPath, LeastTargetWalk;
    var node := nodes[i];
    assert node in Elements(nodes);
    WithoutIndexFacts(nodes, i);
    var others := DropCandidate(nodes, i);
    OthersInRange(p, nodes, i);
    var path := FindWitnessPath(p, others);
    WitnessFound(p, Elements(nodes), node, path);
    var witnessPath := if path != [] && node in path then path else [];
    member := PlanMember(node, p.weights[node], p.isProtected[node], witnessPath);
  }

  lemma OthersInRange(p: Problem, nodes: seq<nat>, i: nat)
    requires i < |nodes| && forall j :: 0 <= j < |nodes| ==> nodes[j] < p.NodeCount()
    ensures forall j :: 0 <= j < |nodes| - 1 ==> WithoutIndex(nodes, i)[j] < p.NodeCount()
  {
  }

  /** A plain member of a minimal cut always has a witness path through it and around the rest. */
  lemma WitnessFound(p: Problem, c: set<nat>, v: nat, path: seq<nat>)
    requires p.Valid() && Feasible(p, c) && InclusionMinimal(p, c) && v in c
    requires path == [] <==> !HasResidualPath(p, c - {v})
    requires path != [] ==> LeastTargetWalk(Residual(p, c - {v}), path)
    ensures v < p.NodeCount()
    ensures path == [] ==> p.IsMandatory(v) || p.IsOverlap(v)
    ensures path != [] ==> TargetWalk(Residual(p, c - {v}), path) && Distinct(path)
    ensures path != [] ==> v in path && forall x :: x in path && x != v ==> x !in c
  {
    assert p.IsEligible(v);
    if path == [] && !p.IsMandatory(v) {
      assert v !in p.Mandatory();
      NeedsPath(p, c, v);
    }
    assert !TargetWalk(Propagation(p, c), path);
  }

  lemma NeedsPath(p: Problem, c: set<nat>, v: nat)
    requires p.Valid() && Feasible(p, c) && InclusionMinimal(p, c) && v in c && v !in p.Mandatory()
    ensures HasResidualPath(p, c - {v}) || p.IsOverlap(v)
  {
    assert c - {v} < c;
    if !Connects(p, c - {v}) { IdleMember(p, c, v); }
    ConnectsExactly(p, c);
    ConnectsExactly(p, c - {v});
  }
}
