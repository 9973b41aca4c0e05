/** Completed answers of the exact solver: on every instance, at every budget that suffices, there is one answer. */
module ExactAnswers {
  import opened Collections
  import opened BreadthFirst
  import opened Containment
  import opened ResidualPaths
  import opened CutVerifier
  import opened SearchBounds
  import opened ExactSolver

  /** On any instance a completed answer is one answer, whatever budget it was given. */
  lemma AnswerDetermined(p: Problem, m: nat, n: nat, s: CutSolution, t: CutSolution)
    requires p.Valid() && SolutionOk(p, m, s) && SolutionOk(p, n, t) && !s.budgetExhausted && !t.budgetExhausted
    ensures s.status == t.status && s.objective == t.objective && (s.HasSolution() ==> s.members == t.members)
  {
    hide Reaches, Feasible, Problem.Valid, WitnessOk, RootOpen, ObjectiveLess, ObjectiveOf;
    var a, b := Elements(s.members), Elements(t.members);
    if s.HasSolution() && a != b {
      ObjectiveTransitive(ObjectiveOf(p, a), ObjectiveOf(p, b), ObjectiveOf(p, a), p.minimizeProtected);
      ObjectiveIrreflexive(ObjectiveOf(p, a), p.minimizeProtected);
    }
    if s.HasSolution() { AscendingUnique(s.members, t.members); }
  }

  /** A budget above the worst case is never exhausted. */
  lemma SufficientCompletes(p: Problem, m: nat, s: CutSolution)
    requires p.Valid() && SolutionOk(p, m, s) && m >= Sufficient(p)
    ensures !s.budgetExhausted
  {
  }

  /** The feasible sets that branching arrives at. */
  ghost function Reached(p: Problem): set<set<nat>>
    requires p.Valid()
  {
    set c: set<nat> | c <= Range(p.NodeCount()) && Feasible(p, c) && Reaches(p, p.Mandatory(), c)
  }

  lemma ReachedExactly(p: Problem, c: set<nat>)
    requires p.Valid()
    ensures c in Reached(p) <==> Feasible(p, c) && Reaches(p, p.Mandatory(), c)
  {
    if Feasible(p, c) { assert c <= Range(p.NodeCount()); }
  }

  /** Some set of the family is strictly better than all others. */
  lemma {:induction false} BestOf(p: Problem, family: set<set<nat>>) returns (best: set<nat>)
    requires p.Valid() && family != {} && forall c, v :: c in family && v in c ==> v < p.NodeCount()
    ensures best in family
    ensures forall c :: c in family && c != best ==> ObjectiveLess(ObjectiveOf(p, best), ObjectiveOf(p, c), p.minimizeProtected)
    decreases |family|
  {
    hide ObjectiveOf, ObjectiveLess, Problem.Valid;
    var x :| x in family;
    var rest := family - {x};
    assert forall c :: c in family ==> c == x || c in rest;
    best := x;
    if rest != {} {
      var y := BestOf(p, rest);
      ObjectivesDiffer(p, x, y, p.minimizeProtected);
      if ObjectiveLess(ObjectiveOf(p, y), ObjectiveOf(p, x), p.minimizeProtected) {
        best := y;
      } else {
        forall c | c in rest && c != y ensures ObjectiveLess(ObjectiveOf(p, x), ObjectiveOf(p, c), p.minimizeProtected) {
          ObjectiveTransitive(ObjectiveOf(p, x), ObjectiveOf(p, y), ObjectiveOf(p, c), p.minimizeProtected);
        }
      }
    }
  }

  /** Every instance has a completed answer at every sufficient budget. */
  lemma AnswerExists(p: Problem, m: nat) returns (s: CutSolution)
    requires p.Valid() && m >= Sufficient(p)
    ensures SolutionOk(p, m, s) && !s.budgetExhausted
  {
    hide Feasible, Problem.Valid, Reaches, ObjectiveOf, ObjectiveLess, RootOpen, WitnessOk, UniqueOptimum, Infeasible,
      Problem.OverlapSettled, Sufficient, Reached, WitnessStored, BarrenAtOnce;
    if Reached(p) == {} {
      var path := StoredWitness(p);
      s := CutSolution(ProvenInfeasible, [], None, path, 1, false);
      forall c ensures !(Feasible(p, c) && Reaches(p, p.Mandatory(), c)) { ReachedExactly(p, c); }
    } else {
      ReachedBelow(p);
      var best := BestOf(p, Reached(p));
      ReachedExactly(p, best);
      FeasibleNotBarren(p, best);
      var members := MembersBelow(best, p.NodeCount());
      assert Elements(members) == best by { assert forall v :: v in best ==> v < p.NodeCount(); }
      s := CutSolution(ProvenOptimal, members, Some(ObjectiveOf(p, best)), None, 1, false);
      forall c | Feasible(p, c) && Reaches(p, p.Mandatory(), c)
        ensures c == best || ObjectiveLess(ObjectiveOf(p, best), ObjectiveOf(p, c), p.minimizeProtected)
      {
        ReachedExactly(p, c);
      }
    }
    assert BestReached(p, s);
    if p.OverlapSettled() { BestIsOptimal(p, s); }
  }

  lemma ReachedBelow(p: Problem)
    requires p.Valid()
    ensures forall c, v :: c in Reached(p) && v in c ==> v < p.NodeCount()
  {
  }

  /** A witness as the contract asks for it. */
  lemma StoredWitness(p: Problem) returns (path: Option<seq<nat>>)
    requires p.Valid()
    ensures path.Some? ==> WitnessOk(p, path.value)
    ensures path.Some? <==> WitnessStored(p)
    ensures forall q :: BarrenAtOnce(p, q) ==> path == if |q| <= MAX_CERTIFICATE_NODES then Some(q) else None
  {
    hide MeetsBarren, LeastTargetWalk, WitnessOk, Barren, AllContainable, Residual;
    if q :| BarrenAtOnce(p, q) {
      path := if |q| <= MAX_CERTIFICATE_NODES then Some(q) else None;
      BarrenAtOnceAlone(p, q);
      BarrenRefutes(p, p.Mandatory(), q);
    } else if MeetsBarren(p, p.Mandatory(), {}) {
      var q := BarrenMet(p, p.Mandatory(), {});
      path := Some(q);
    } else if p.Mandatory() == {} && RootOpen(p) {
      var q :| LeastTargetWalk(Residual(p, {}), q) && AllContainable(p, q);
      LeastIsWitness(p, q);
      path := Some(q);
    } else {
      path := None;
    }
  }

  lemma LeastIsWitness(p: Problem, q: seq<nat>)
    requires p.Valid() && p.Mandatory() == {} && LeastTargetWalk(Residual(p, {}), q) && AllContainable(p, q)
    ensures WitnessOk(p, q)
  {
  }

  lemma BarrenAtOnceAlone(p: Problem, q: seq<nat>)
    requires p.Valid() && BarrenAtOnce(p, q)
    ensures forall other :: BarrenAtOnce(p, other) ==> other == q
    ensures WitnessStored(p) <==> |q| <= MAX_CERTIFICATE_NODES
  {
    hide LeastTargetWalk, MeetsBarren;
    OnlyLeast(p, p.Mandatory(), q);
    MeetsOn(p, p.Mandatory(), {}, q);
    if p.Mandatory() == {} && RootOpen(p) {
      var other :| LeastTargetWalk(Residual(p, {}), other) && AllContainable(p, other);
      NotAllContainable(p, other);
    }
  }

  /** With the mandatory members within the bounds and no containable node on the least path around them, every
      completed answer is a proof of infeasibility, and up to certificate length that path is its witness, which
      the checker accepts. */
  lemma BarrenAnswered(p: Problem, m: nat, s: CutSolution, path: seq<nat>)
    requires p.Valid() && SolutionOk(p, m, s) && !s.budgetExhausted && BarrenAtOnce(p, path)
    ensures s.status.ProvenInfeasible? && Infeasible(p)
    ensures |path| <= MAX_CERTIFICATE_NODES ==> s.infeasibilityPath == Some(path) && Certificate(p, path)
    ensures |path| > MAX_CERTIFICATE_NODES ==> s.infeasibilityPath == None
  {
    BarrenRefutes(p, p.Mandatory(), path);
    if |path| <= MAX_CERTIFICATE_NODES { BarrenCertified(p, path); }
  }

  /** Whatever barren witness is stored, the checker accepts it. */
  lemma BarrenCertified(p: Problem, path: seq<nat>)
    requires p.Valid() && WitnessOk(p, path) && Barren(p, path)
    ensures Certificate(p, path)
  {
    assert TargetWalk(Propagation(p, {}), path);
    assert path[0] in Elements(p.sources);
  }
}
