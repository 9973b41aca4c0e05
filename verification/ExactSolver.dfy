/** Complete branch-and-bound search for MCC-1, with its mutable search state. */
module ExactSolver {
  import opened Collections
  import opened BreadthFirst
  import opened Containment
  import opened ResidualPaths
  import opened CutVerifier
  import opened SearchBounds

  const MAX_CERTIFICATE_NODES := 4096
  const BOUND_ITERATIONS := 32

  // ---------------------------------------------------------------------
  // What a finished search node has established
  // ---------------------------------------------------------------------

  /** The incumbent: the best feasible set seen so far, if any. */
  datatype Incumbent = NoIncumbent | Incumbent(members: seq<nat>, objective: Objective)

  ghost predicate IncumbentOk(p: Problem, best: Incumbent)
    requires p.Valid()
  {
    best.Incumbent? ==>
      && Ascending(best.members) && Feasible(p, Elements(best.members))
      && best.objective == ObjectiveOf(p, Elements(best.members))
      && Reaches(p, p.Mandatory(), Elements(best.members))
  }

  // ---------------------------------------------------------------------
  // The sets that branching can arrive at
  // ---------------------------------------------------------------------

  /** Step `i` is the first of the path that lies in `c`. */
  ghost predicate FirstIn(path: seq<nat>, i: nat, c: set<nat>) {
    i < |path| && path[i] in c && forall j :: 0 <= j < i ==> path[j] !in c
  }

  /** From `included`, taking at every least residual path its first step inside `c`, branching comes
      to a position without residual path whose included set is itself feasible. */
  ghost predicate Reaches(p: Problem, included: set<nat>, c: set<nat>)
    requires p.Valid()
    decreases c - included
  {
    && included <= c
    && (if HasResidualPath(p, included) then
          exists path, i :: LeastTargetWalk(Residual(p, included), path) && FirstIn(path, i, c)
            && path[i] !in included && Reaches(p, included + {path[i]}, c)
        else Feasible(p, included))
  }

  /** Which step is taken is determined, so the recursion can be followed along any given path. */
  lemma ReachesOn(p: Problem, included: set<nat>, c: set<nat>, path: seq<nat>, i: nat)
    requires p.Valid() && LeastTargetWalk(Residual(p, included), path) && FirstIn(path, i, c) && included <= c
    ensures path[i] !in included && (Reaches(p, included, c) <==> Reaches(p, included + {path[i]}, c))
  {
    assert HasResidualPath(p, included) by { assert TargetWalk(Residual(p, included), path); }
    if Reaches(p, included, c) {
      var other, j :| LeastTargetWalk(Residual(p, included), other) && FirstIn(other, j, c)
        && other[j] !in included && Reaches(p, included + {other[j]}, c);
      LeastTargetWalkUnique(Residual(p, included), path, other);
      assert i == j;
    }
  }

  /** Among the completions that avoid what is excluded, the first step in `c` is the one taken. */
  lemma FirstOpenIsFirst(p: Problem, now: set<nat>, path: seq<nat>, i: nat, c: set<nat>)
    requires p.Valid() && Feasible(p, c) && c !! now && i < |path| && path[i] in c
    requires forall j :: 0 <= j < i ==> !IsOpen(p, now, path[j])
    ensures FirstIn(path, i, c)
  {
    forall v | v in c ensures IsOpen(p, now, v) { assert p.IsEligible(v); }
  }

  /** What is reached from here, clear of the excluded nodes, is reached from the mandatory members. */
  ghost predicate Onward(p: Problem, included: set<nat>, excluded: set<nat>)
    requires p.Valid()
  {
    && included !! excluded
    && forall c :: Feasible(p, c) && c !! excluded && Reaches(p, included, c) ==> Reaches(p, p.Mandatory(), c)
  }

  lemma OnwardClear(p: Problem, included: set<nat>, excluded: set<nat>)
    requires p.Valid() && Onward(p, included, excluded)
    ensures included !! excluded
  {
  }

  lemma OnwardExcluding(p: Problem, included: set<nat>, excluded: set<nat>, now: set<nat>)
    requires p.Valid() && Onward(p, included, excluded) && excluded <= now && included !! now
    ensures Onward(p, included, now)
  {
  }

  lemma OnwardChild(p: Problem, included: set<nat>, now: set<nat>, path: seq<nat>, i: nat)
    requires p.Valid() && Onward(p, included, now) && LeastTargetWalk(Residual(p, included), path)
    requires i < |path| && IsOpen(p, now, path[i]) && forall j :: 0 <= j < i ==> !IsOpen(p, now, path[j])
    ensures Onward(p, included + {path[i]}, now)
  {
    hide LeastTargetWalk, Feasible, Reaches;
    var child := included + {path[i]};
    forall c | Feasible(p, c) && c !! now && Reaches(p, child, c) ensures Reaches(p, p.Mandatory(), c) {
      ReachesHolds(p, child, c);
      FirstOpenIsFirst(p, now, path, i, c);
      ReachesOn(p, included, c, path, i);
    }
  }

  lemma ReachesHolds(p: Problem, included: set<nat>, c: set<nat>)
    requires p.Valid() && Reaches(p, included, c)
    ensures included <= c
  {
  }

  lemma LeafReached(p: Problem, included: set<nat>, excluded: set<nat>)
    requires p.Valid() && Onward(p, included, excluded) && !HasResidualPath(p, included) && Feasible(p, included)
    ensures Reaches(p, p.Mandatory(), included)
  {
    assert Reaches(p, included, included);
  }

  /** When every failed and protected node is mandatory or barred, branching arrives at every feasible set. */
  lemma {:induction false} SettledReaches(p: Problem, included: set<nat>, c: set<nat>)
    requires p.Valid() && p.OverlapSettled() && p.Mandatory() <= included <= c && Feasible(p, c)
    ensures Reaches(p, included, c)
    decreases c - included
  {
    if HasResidualPath(p, included) {
      var path, i := FirstTakenBy(p, included, c);
      assert path[i] !in included;
      SettledReaches(p, included + {path[i]}, c);
    } else {
      SubsetCount(included, c);
      SumMonotone(p.weights, included, c);
      if !Feasible(p, included) {
        RejectedLeaf(p, included, {});
        assert Completion(p, included, {}, c);
      }
    }
  }

  /** The least path is met by every feasible set, so one of its steps is the first to lie in it. */
  lemma FirstTakenBy(p: Problem, included: set<nat>, c: set<nat>) returns (path: seq<nat>, i: nat)
    requires p.Valid() && HasResidualPath(p, included) && Feasible(p, c)
    ensures LeastTargetWalk(Residual(p, included), path) && FirstIn(path, i, c) && path[i] !in included
  {
    var q :| TargetWalk(Residual(p, included), q);
    path := LeastTargetWalkExists(Residual(p, included), q);
    FeasibleHitsPath(p, c, included, path);
    var k :| 0 <= k < |path| && path[k] in c;
    i := FirstBefore(path, k, c);
  }

  lemma {:induction false} FirstBefore(path: seq<nat>, k: nat, c: set<nat>) returns (i: nat)
    requires k < |path| && path[k] in c
    ensures FirstIn(path, i, c)
    decreases k
  {
    if j :| 0 <= j < k && path[j] in c {
      i := FirstBefore(path, j, c);
    } else {
      i := k;
    }
  }

  /** `c` is no better than the incumbent. */
  ghost predicate Dominated(p: Problem, best: Incumbent, c: set<nat>) {
    best.Incumbent? && !ObjectiveLess(ObjectiveOf(p, c), best.objective, p.minimizeProtected)
  }

  ghost predicate AllDominated(p: Problem, best: Incumbent, included: set<nat>, excluded: set<nat>)
    requires p.Valid()
  {
    forall c :: Completion(p, included, excluded, c) ==> Dominated(p, best, c)
  }

  /** The incumbent only ever gets better. */
  ghost predicate Improved(p: Problem, before: Incumbent, after: Incumbent) {
    before == after || (after.Incumbent? &&
      (before.Incumbent? ==> ObjectiveLess(after.objective, before.objective, p.minimizeProtected)))
  }

  lemma NoneBefore(p: Problem, before: Incumbent, after: Incumbent)
    requires Improved(p, before, after) && after.NoIncumbent?
    ensures before.NoIncumbent?
  {
  }

  lemma ImprovedTransitive(p: Problem, a: Incumbent, b: Incumbent, c: Incumbent)
    requires Improved(p, a, b) && Improved(p, b, c)
    ensures Improved(p, a, c)
  {
    if a.Incumbent? && a != b && b != c {
      ObjectiveTransitive(c.objective, b.objective, a.objective, p.minimizeProtected);
    }
  }

  lemma DominatedByImproved(p: Problem, a: Incumbent, b: Incumbent, c: set<nat>)
    requires Dominated(p, a, c) && Improved(p, a, b)
    ensures Dominated(p, b, c)
  {
    if a != b && ObjectiveLess(ObjectiveOf(p, c), b.objective, p.minimizeProtected) {
      ObjectiveTransitive(ObjectiveOf(p, c), b.objective, a.objective, p.minimizeProtected);
    }
  }

  /** Too many members or too much weight already: no completion can undo that. */
  lemma BoundsExceeded(p: Problem, included: set<nat>, excluded: set<nat>)
    requires p.Valid() && (|included| > p.maxMembers || Weight(p, included) > p.maxTotalWeight)
    ensures Uncompletable(p, included, excluded)
  {
    forall c ensures !Completion(p, included, excluded, c) {
      if included <= c {
        SubsetCount(included, c);
        SumMonotone(p.weights, included, c);
      }
    }
  }

  /** At a leaf without residual path the included set is the best completion if it is valid. */
  lemma LeafIsBest(p: Problem, included: set<nat>, excluded: set<nat>, c: set<nat>)
    requires p.Valid() && Feasible(p, included) && Completion(p, included, excluded, c)
    ensures c == included || ObjectiveLess(ObjectiveOf(p, included), ObjectiveOf(p, c), p.minimizeProtected)
  {
    if c != included { SupersetIsWorse(p, included, c, p.minimizeProtected); }
  }

  /** A rejected leaf has no completion at all. */
  lemma RejectedLeaf(p: Problem, included: set<nat>, excluded: set<nat>)
    requires p.Valid() && p.OverlapSettled() && p.Mandatory() <= included
    requires |included| <= p.maxMembers && Weight(p, included) <= p.maxTotalWeight
    requires !HasResidualPath(p, included) && !Feasible(p, included)
    ensures Uncompletable(p, included, excluded)
  {
    if AllEligible(p, included) {
      ConnectsExactly(p, included);
      var v: nat :| p.IsOverlap(v) && v !in included;
      assert v in p.Mandatory() <==> p.IsMandatory(v);
      BarredOverlap(p, v);
    }
  }

  /** A node that is failed and protected but in no containment set leaves nothing feasible. */
  lemma BarredOverlap(p: Problem, v: nat)
    requires p.Valid() && p.IsOverlap(v) && !p.IsEligible(v)
    ensures Infeasible(p)
  {
    forall c ensures !Feasible(p, c) {
      if AllEligible(p, c) { ConnectsExactly(p, c); }
    }
  }

  /** Pruning: when the incumbent beats the bound, it beats every completion. */
  lemma PrunedDominated(p: Problem, best: Incumbent, included: set<nat>, excluded: set<nat>, bound: nat)
    requires p.Valid() && best.Incumbent?
    requires forall c :: Completion(p, included, excluded, c) ==> Weight(p, included) + bound <= Weight(p, c)
    requires ObjectiveLess(best.objective,
      Objective(ProtectedInclusions(p, included), Weight(p, included) + bound, |included|, []), p.minimizeProtected)
    ensures AllDominated(p, best, included, excluded)
  {
    var lower := Objective(ProtectedInclusions(p, included), Weight(p, included) + bound, |included|, []);
    forall c | Completion(p, included, excluded, c) ensures Dominated(p, best, c) {
      SumMonotone(Flags(p.isProtected), included, c);
      SubsetCount(included, c);
      assert !ObjectiveLess(ObjectiveOf(p, c), lower, p.minimizeProtected);
      ObjectiveTransitive(best.objective, lower, ObjectiveOf(p, c), p.minimizeProtected);
      if ObjectiveLess(ObjectiveOf(p, c), best.objective, p.minimizeProtected) {
        ObjectiveTransitive(best.objective, ObjectiveOf(p, c), best.objective, p.minimizeProtected);
        ObjectiveIrreflexive(best.objective, p.minimizeProtected);
      }
    }
  }

  /** What a completed search node promises: no completion that branching can arrive at is better. */
  ghost predicate Settled(p: Problem, best: Incumbent, included: set<nat>, excluded: set<nat>)
    requires p.Valid()
  {
    forall c :: Completion(p, included, excluded, c) && Reaches(p, included, c) ==> Dominated(p, best, c)
  }

  lemma NothingLeft(p: Problem, best: Incumbent, included: set<nat>, excluded: set<nat>)
    requires p.Valid() && Uncompletable(p, included, excluded)
    ensures Settled(p, best, included, excluded)
  {
  }

  /** Keeping the better of the leaf and the incumbent settles the leaf. */
  lemma LeafSettled(p: Problem, best: Incumbent, included: set<nat>, excluded: set<nat>)
    requires p.Valid() && Feasible(p, included) && best.Incumbent?
    requires !ObjectiveLess(ObjectiveOf(p, included), best.objective, p.minimizeProtected)
    ensures Settled(p, best, included, excluded)
  {
    forall c | Completion(p, included, excluded, c) ensures Dominated(p, best, c) {
      LeafIsBest(p, included, excluded, c);
      if c != included && ObjectiveLess(ObjectiveOf(p, c), best.objective, p.minimizeProtected) {
        ObjectiveTransitive(ObjectiveOf(p, included), ObjectiveOf(p, c), best.objective, p.minimizeProtected);
      }
    }
  }

  // ---------------------------------------------------------------------
  // Branching
  // ---------------------------------------------------------------------

  /** The child of a search node that takes path step `i` first: everything open before it is out. */
  ghost predicate InChild(p: Problem, included: set<nat>, excluded: set<nat>, path: seq<nat>, i: nat, c: set<nat>)
    requires p.Valid() && i < |path|
  {
    && IsOpen(p, excluded, path[i])
    && Completion(p, included + {path[i]}, excluded + OpenOn(p, excluded, path[..i]), c)
  }

  /** Branching is a partition: every completion lies in exactly one child. */
  lemma BranchesPartition(p: Problem, included: set<nat>, excluded: set<nat>, removed: set<nat>, path: seq<nat>, c: set<nat>)
    requires p.Valid() && Completion(p, included, excluded, c)
    requires TargetWalk(Residual(p, removed), path) && Distinct(path)
    ensures exists i :: 0 <= i < |path| && InChild(p, included, excluded, path, i, c)
    ensures forall i, j :: 0 <= i < j < |path| && InChild(p, included, excluded, path, i, c) ==>
      !InChild(p, included, excluded, path, j, c)
  {
    CompletionHitsPath(p, included, excluded, removed, path, c);
    var v :| v in OpenOn(p, excluded, path) * c;
    var k :| 0 <= k < |path| && path[k] == v;
    var i := FirstTaken(p, excluded, path, c, k);
    assert InChild(p, included, excluded, path, i, c);
    forall i, j | 0 <= i < j < |path| && InChild(p, included, excluded, path, i, c)
      ensures !InChild(p, included, excluded, path, j, c)
    {
      assert path[..j][i] == path[i];
      assert path[i] in OpenOn(p, excluded, path[..j]);
    }
  }

  lemma {:induction false} FirstTaken(p: Problem, excluded: set<nat>, path: seq<nat>, c: set<nat>, k: nat) returns (i: nat)
    requires k < |path| && IsOpen(p, excluded, path[k]) && path[k] in c
    ensures i <= k && IsOpen(p, excluded, path[i]) && path[i] in c
    ensures c !! OpenOn(p, excluded, path[..i])
    decreases k
  {
    if j :| 0 <= j < k && IsOpen(p, excluded, path[j]) && path[j] in c {
      i := FirstTaken(p, excluded, path, c, j);
    } else {
      i := k;
    }
  }

  /** After a child is finished its node is excluded: the completions seen so far are dominated
      and the rest lies further down the path. */
  ghost predicate DominatedUpTo(p: Problem, best: Incumbent, included: set<nat>, excluded: set<nat>, now: set<nat>)
    requires p.Valid()
  {
    forall c :: Completion(p, included, excluded, c) && Reaches(p, included, c) ==> Dominated(p, best, c) || c !! now
  }

  lemma ChildFinished(p: Problem, best: Incumbent, included: set<nat>, excluded: set<nat>, now: set<nat>, path: seq<nat>, i: nat)
    requires p.Valid() && excluded <= now && LeastTargetWalk(Residual(p, included), path) && i < |path|
    requires forall j :: 0 <= j < i ==> !IsOpen(p, now, path[j])
    requires DominatedUpTo(p, best, included, excluded, now)
    requires Settled(p, best, included + {path[i]}, now)
    ensures DominatedUpTo(p, best, included, excluded, now + {path[i]})
  {
    hide LeastTargetWalk, Feasible, Reaches, Dominated;
    forall c | Completion(p, included, excluded, c) && Reaches(p, included, c)
      ensures Dominated(p, best, c) || c !! now + {path[i]}
    {
      if path[i] in c && c !! now {
        FirstOpenIsFirst(p, now, path, i, c);
        ReachesOn(p, included, c, path, i);
        assert Completion(p, included + {path[i]}, now, c);
      }
    }
  }

  lemma DominatedUpToImproved(p: Problem, before: Incumbent, after: Incumbent, included: set<nat>, excluded: set<nat>, now: set<nat>)
    requires p.Valid() && Improved(p, before, after) && DominatedUpTo(p, before, included, excluded, now)
    ensures DominatedUpTo(p, after, included, excluded, now)
  {
    hide Reaches;
    forall c | Completion(p, included, excluded, c) && Reaches(p, included, c) ensures Dominated(p, after, c) || c !! now {
      if Dominated(p, before, c) { DominatedByImproved(p, before, after, c); }
    }
  }

  /** Once every open node of the path is excluded, no completion is left. */
  lemma AllChildrenFinished(p: Problem, best: Incumbent, included: set<nat>, excluded: set<nat>, now: set<nat>, path: seq<nat>)
    requires p.Valid() && DominatedUpTo(p, best, included, excluded, now)
    requires TargetWalk(Residual(p, included), path)
    requires forall v :: v in path && IsOpen(p, excluded, v) ==> v in now
    ensures Settled(p, best, included, excluded)
  {
    hide Reaches;
    forall c | Completion(p, included, excluded, c) && Reaches(p, included, c) ensures Dominated(p, best, c) {
      CompletionHitsPath(p, included, excluded, included, path, c);
      var v :| v in OpenOn(p, excluded, path) * c;
    }
  }

  // ---------------------------------------------------------------------
  // Infeasibility witnesses
  // ---------------------------------------------------------------------

  /** No node of the path may be contained. */
  ghost predicate Barren(p: Problem, path: seq<nat>) {
    forall i :: 0 <= i < |path| ==> path[i] < p.NodeCount() && !p.containable[path[i]]
  }

  /** A stored witness is a residual path of the whole instance: one of certificate length on which no node is
      containable, or, with nothing mandatory, the least path if every node on it is. */
  ghost predicate WitnessOk(p: Problem, path: seq<nat>)
    requires p.Valid()
  {
    && TargetWalk(Residual(p, {}), path)
    && ((Barren(p, path) && |path| <= MAX_CERTIFICATE_NODES)
     || (p.Mandatory() == {} && LeastTargetWalk(Residual(p, {}), path) && AllContainable(p, path)))
  }

  ghost predicate Fits(p: Problem, c: set<nat>) {
    |c| <= p.maxMembers && Weight(p, c) <= p.maxTotalWeight
  }

  /** Branching on from `included`, with every step taken and then excluded in turn, comes within the bounds to a
      least residual path that may be stored because no node on it is containable. */
  ghost predicate MeetsBarren(p: Problem, included: set<nat>, excluded: set<nat>)
    requires p.Valid()
    decreases Marked(p.containable) - included - excluded, 3
  {
    && Fits(p, included)
    && exists path :: LeastTargetWalk(Residual(p, included), path) && PathMeets(p, included, excluded, path)
  }

  ghost predicate PathMeets(p: Problem, included: set<nat>, excluded: set<nat>, path: seq<nat>)
    requires p.Valid()
    decreases Marked(p.containable) - included - excluded, 2
  {
    if Barren(p, path) then |path| <= MAX_CERTIFICATE_NODES else MetUpTo(p, included, excluded, path, |path|)
  }

  /** One of the first `n` steps of the path leads to a barren one. */
  ghost predicate MetUpTo(p: Problem, included: set<nat>, excluded: set<nat>, path: seq<nat>, n: nat)
    requires p.Valid() && n <= |path|
    decreases Marked(p.containable) - included - excluded, 1
  {
    exists i :: 0 <= i < n && StepMeets(p, included, excluded, path, i)
  }

  ghost predicate StepMeets(p: Problem, included: set<nat>, excluded: set<nat>, path: seq<nat>, i: nat)
    requires p.Valid() && i < |path|
    decreases Marked(p.containable) - included - excluded, 0
  {
    && StepOpen(p, included, excluded, path[i])
    && (StepShrinks(p, included, excluded, path, i);
        MeetsBarren(p, included + {path[i]}, excluded + OpenOn(p, excluded, path[..i])))
  }

  ghost predicate StepOpen(p: Problem, included: set<nat>, excluded: set<nat>, v: nat) {
    IsOpen(p, excluded, v) && v in Marked(p.containable) && v !in included
  }

  lemma StepShrinks(p: Problem, included: set<nat>, excluded: set<nat>, path: seq<nat>, i: nat)
    requires i < |path| && StepOpen(p, included, excluded, path[i])
    ensures Marked(p.containable) - (included + {path[i]}) - (excluded + OpenOn(p, excluded, path[..i]))
      < Marked(p.containable) - included - excluded
  {
    assert path[i] in Marked(p.containable) - included - excluded;
    assert path[i] !in Marked(p.containable) - (included + {path[i]}) - (excluded + OpenOn(p, excluded, path[..i]));
  }

  /** The least path is one path, so what branching meets can be read off it. */
  lemma MeetsOn(p: Problem, included: set<nat>, excluded: set<nat>, path: seq<nat>)
    requires p.Valid() && LeastTargetWalk(Residual(p, included), path)
    ensures MeetsBarren(p, included, excluded) <==> Fits(p, included) && PathMeets(p, included, excluded, path)
  {
    hide LeastTargetWalk, PathMeets, Fits;
    if MeetsBarren(p, included, excluded) {
      var other :| LeastTargetWalk(Residual(p, included), other) && PathMeets(p, included, excluded, other);
      LeastTargetWalkUnique(Residual(p, included), path, other);
    }
  }

  /** Then nothing is feasible, and the path met is a witness. */
  lemma {:induction false} BarrenMet(p: Problem, included: set<nat>, excluded: set<nat>) returns (path: seq<nat>)
    requires p.Valid() && MeetsBarren(p, included, excluded)
    ensures Barren(p, path) && WitnessOk(p, path) && Infeasible(p)
    decreases Marked(p.containable) - included - excluded
  {
    hide LeastTargetWalk, StepOpen, WitnessOk, Infeasible, Fits;
    path :| LeastTargetWalk(Residual(p, included), path) && PathMeets(p, included, excluded, path);
    if Barren(p, path) {
      BarrenRefutes(p, included, path);
    } else {
      assert MetUpTo(p, included, excluded, path, |path|);
      var i :| 0 <= i < |path| && StepMeets(p, included, excluded, path, i);
      StepShrinks(p, included, excluded, path, i);
      path := BarrenMet(p, included + {path[i]}, excluded + OpenOn(p, excluded, path[..i]));
    }
  }

  lemma BarrenRefutes(p: Problem, removed: set<nat>, path: seq<nat>)
    requires p.Valid() && LeastTargetWalk(Residual(p, removed), path) && Barren(p, path)
    ensures Infeasible(p) && (|path| <= MAX_CERTIFICATE_NODES ==> WitnessOk(p, path))
  {
    hide AtMost;
    WitnessFromPath(p, removed, path);
    forall c ensures !Feasible(p, c) {
      if Feasible(p, c) { FeasibleHitsPath(p, c, removed, path); }
    }
  }

  lemma WitnessFromPath(p: Problem, removed: set<nat>, path: seq<nat>)
    requires TargetWalk(Residual(p, removed), path)
    ensures TargetWalk(Residual(p, {}), path)
  {
  }

  /** A stored witness passes the certificate check exactly when protected inclusion is disallowed. */
  lemma WitnessAcceptedExactly(p: Problem, path: seq<nat>)
    requires p.Valid() && p.ObligationsSettled() && WitnessOk(p, path)
    ensures Certificate(p, path) <==> !p.allowProtected
  {
    var last := path[|path| - 1];
    assert p.isProtected[last] && p.containable[last] == p.allowProtected;
    assert TargetWalk(Propagation(p, {}), path);
    assert |path| >= 2;
  }

  // ---------------------------------------------------------------------
  // The search
  // ---------------------------------------------------------------------

  /** Where the search stands: everything it changes on the way down and undoes on the way up. */
  datatype Position = Position(
    included: seq<bool>, excluded: seq<bool>, current: seq<nat>, weight: nat, protectedCount: nat)

  ghost predicate PositionOk(p: Problem, at: Position)
    requires p.Valid()
  {
    && |at.included| == |at.excluded| == p.NodeCount()
    && Marked(at.included) == Elements(at.current) && Distinct(at.current)
    && at.weight == Weight(p, Marked(at.included))
    && at.protectedCount == ProtectedInclusions(p, Marked(at.included))
  }

  /** The position after taking `v`. */
  function Taken(p: Problem, at: Position, v: nat): Position
    requires v < |at.included| && v < |p.weights| && v < |p.isProtected|
  {
    at.(included := at.included[v := true], current := at.current + [v], weight := at.weight + p.weights[v],
        protectedCount := at.protectedCount + if p.isProtected[v] then 1 else 0)
  }

  lemma TakenOk(p: Problem, at: Position, v: nat)
    requires p.Valid() && PositionOk(p, at) && v < p.NodeCount() && !at.included[v]
    ensures PositionOk(p, Taken(p, at, v)) && Marked(Taken(p, at, v).included) == Marked(at.included) + {v}
  {
    MarkedUpdate(at.included, v, true);
    ElementsAppend(at.current, v);
    assert v !in Elements(at.current);
    SumAdd(p.weights, Marked(at.included), v);
    SumAdd(Flags(p.isProtected), Marked(at.included), v);
  }

  lemma PositionFacts(p: Problem, at: Position)
    requires p.Valid() && PositionOk(p, at)
    ensures |at.current| == |Marked(at.included)|
    ensures |at.included| == p.NodeCount() == |p.weights| == |p.isProtected|
    ensures forall v :: v in at.current ==> v < p.NodeCount() && at.included[v]
  {
    DistinctIffCount(at.current);
    forall v | v in at.current ensures v < p.NodeCount() && at.included[v] { assert v in Elements(at.current); }
  }

  /** Containable nodes the search has not decided yet: the recursion measure. */
  ghost function Undecided(p: Problem, included: set<nat>, excluded: set<nat>): nat {
    |Marked(p.containable) - included - excluded|
  }

  lemma UndecidedShrinks(p: Problem, included: set<nat>, excluded: set<nat>, now: set<nat>, v: nat)
    requires excluded <= now && IsOpen(p, now, v) && v !in included
    ensures Undecided(p, included + {v}, now) < Undecided(p, included, excluded)
  {
    SubsetCount(Marked(p.containable) - (included + {v}) - now, Marked(p.containable) - included - excluded);
    assert v in Marked(p.containable);
    assert v in Marked(p.containable) - included - excluded;
  }

  /** Deciding one open node either way leaves one node less to decide, and half the worst case for each. */
  lemma UndecidedHalves(p: Problem, included: set<nat>, now: set<nat>, v: nat)
    requires IsOpen(p, now, v) && v !in included
    ensures Pow2(Undecided(p, included + {v}, now)) + Pow2(Undecided(p, included, now + {v}))
      == Pow2(Undecided(p, included, now))
  {
    var open := Marked(p.containable) - included - now;
    assert v in Marked(p.containable);
    assert Marked(p.containable) - (included + {v}) - now == open - {v} == Marked(p.containable) - included - (now + {v});
    assert |open - {v}| == |open| - 1;
  }

  /** A budget no search outruns: every undecided containable node at most doubles the search. */
  function Sufficient(p: Problem): (budget: nat)
    ensures budget > 0
  {
    Pow2(|Marked(p.containable)|)
  }

  lemma SufficientBounds(p: Problem, included: set<nat>, excluded: set<nat>)
    ensures Pow2(Undecided(p, included, excluded)) <= Sufficient(p)
  {
    SubsetCount(Marked(p.containable) - included - excluded, Marked(p.containable));
    Pow2Monotone(Undecided(p, included, excluded), |Marked(p.containable)|);
  }

  lemma MaskDetermined(a: seq<bool>, b: seq<bool>)
    requires |a| == |b| && Marked(a) == Marked(b)
    ensures a == b
  {
    forall i | 0 <= i < |a| ensures a[i] == b[i] {
      assert a[i] <==> i in Marked(a);
      assert b[i] <==> i in Marked(b);
    }
  }

  datatype SolveStatus =
    ProvenOptimal | FeasibleNotProvenOptimal | ProvenInfeasible | LimitReachedNoSolution | InvalidProblem

  datatype CutSolution = CutSolution(
    status: SolveStatus, members: seq<nat>, objective: Option<Objective>,
    infeasibilityPath: Option<seq<nat>>, explored: nat, budgetExhausted: bool)
  {
    predicate HasSolution() { status.ProvenOptimal? || status.FeasibleNotProvenOptimal? }
  }

  /** What a solution of the exact solver claims, status by status. */
  ghost predicate SolutionOk(p: Problem, maxExplored: nat, s: CutSolution)
    requires p.Valid()
  {
    && 1 <= s.explored <= maxExplored + 1 && s.explored <= Sufficient(p)
    && (s.budgetExhausted <==> s.explored > maxExplored)
    && (s.status.ProvenOptimal? || s.status.ProvenInfeasible? <==> !s.budgetExhausted)
    && (s.HasSolution() <==> s.objective.Some?) && !s.status.InvalidProblem?
    && (s.HasSolution() ==>
          && Ascending(s.members) && Feasible(p, Elements(s.members))
          && s.objective == Some(ObjectiveOf(p, Elements(s.members))))
    && (s.HasSolution() ==> Reaches(p, p.Mandatory(), Elements(s.members)))
    && (!s.budgetExhausted ==> BestReached(p, s))
    && (p.OverlapSettled() && s.status.ProvenOptimal? ==> UniqueOptimum(p, Elements(s.members)))
    && (p.OverlapSettled() && s.status.ProvenInfeasible? ==> Infeasible(p))
    && (s.infeasibilityPath.Some? ==> s.status.ProvenInfeasible? && WitnessOk(p, s.infeasibilityPath.value))
    && (s.status.ProvenInfeasible? ==> (s.infeasibilityPath.Some? <==> WitnessStored(p)))
    && (!s.budgetExhausted ==> forall path :: BarrenAtOnce(p, path) ==>
          && s.status.ProvenInfeasible?
          && s.infeasibilityPath == if |path| <= MAX_CERTIFICATE_NODES then Some(path) else None)
    && (!s.HasSolution() ==> s.members == [])
  }

  /** A proof of infeasibility comes with a witness exactly when branching meets a barren path that may be stored,
      or nothing is mandatory and the least path is containable throughout. */
  ghost predicate WitnessStored(p: Problem)
    requires p.Valid()
  {
    MeetsBarren(p, p.Mandatory(), {}) || (p.Mandatory() == {} && RootOpen(p))
  }

  /** The mandatory members fit the bounds, and no node of the least path around them is containable. */
  ghost predicate BarrenAtOnce(p: Problem, path: seq<nat>)
    requires p.Valid()
  {
    Fits(p, p.Mandatory()) && LeastTargetWalk(Residual(p, p.Mandatory()), path) && Barren(p, path)
  }

  /** A completed answer on any instance: a solution exactly when branching arrives at a feasible set,
      and then the strictly best of those sets. */
  ghost predicate BestReached(p: Problem, s: CutSolution)
    requires p.Valid()
  {
    forall c :: Feasible(p, c) && Reaches(p, p.Mandatory(), c) ==>
      && s.HasSolution()
      && (c == Elements(s.members) || ObjectiveLess(ObjectiveOf(p, Elements(s.members)), ObjectiveOf(p, c), p.minimizeProtected))
  }

  /** Every node of the first path the search meets may be contained. */
  ghost predicate RootOpen(p: Problem)
    requires p.Valid()
  {
    exists path :: LeastTargetWalk(Residual(p, {}), path) && AllContainable(p, path)
  }

  ghost predicate AllContainable(p: Problem, path: seq<nat>) {
    forall i :: 0 <= i < |path| ==> path[i] < p.NodeCount() && p.containable[path[i]]
  }

  lemma SettledIsBest(p: Problem, best: Incumbent, s: CutSolution)
    requires p.Valid() && IncumbentOk(p, best) && Settled(p, best, p.Mandatory(), {})
    requires s.HasSolution() == best.Incumbent? && (best.Incumbent? ==> s.members == best.members)
    ensures BestReached(p, s)
  {
    hide Reaches;
    forall c | Feasible(p, c) && Reaches(p, p.Mandatory(), c)
      ensures s.HasSolution()
      ensures c == Elements(s.members) || ObjectiveLess(ObjectiveOf(p, Elements(s.members)), ObjectiveOf(p, c), p.minimizeProtected)
    {
      assert Completion(p, p.Mandatory(), {}, c);
      var b := Elements(s.members);
      if c != b {
        assert forall v :: v in b + c ==> v in b || v in c;
        ObjectivesDiffer(p, b, c, p.minimizeProtected);
      }
    }
  }

  /** With failed and protected nodes mandatory or barred, branching misses nothing, so the best of what
      it reaches is the optimum. */
  lemma BestIsOptimal(p: Problem, s: CutSolution)
    requires p.Valid() && p.OverlapSettled() && BestReached(p, s)
    requires s.HasSolution() ==> Feasible(p, Elements(s.members))
    ensures if s.HasSolution() then UniqueOptimum(p, Elements(s.members)) else Infeasible(p)
  {
    hide Reaches;
    forall c | Feasible(p, c) ensures Reaches(p, p.Mandatory(), c) {
      SettledReaches(p, p.Mandatory(), c);
    }
  }

  /** The mandatory members among some of the sources. */
  ghost function MandatoryAmong(p: Problem, sources: seq<nat>): set<nat>
    requires p.Valid()
  {
    set v | v in sources && v in p.Mandatory()
  }

  lemma MandatoryNext(p: Problem, i: nat, included: seq<bool>)
    requires p.Valid() && i < |p.sources| && p.sources[i] < p.NodeCount() == |included|
    requires Marked(included) == MandatoryAmong(p, p.sources[..i])
    ensures !included[p.sources[i]]
    ensures MandatoryAmong(p, p.sources[..i + 1]) ==
      MandatoryAmong(p, p.sources[..i]) + if p.IsMandatory(p.sources[i]) then {p.sources[i]} else {}
  {
    var v := p.sources[i];
    assert p.sources[..i + 1] == p.sources[..i] + [v];
    assert v !in p.sources[..i];
    assert included[v] <==> v in Marked(included);
    assert v in p.Mandatory() <==> p.IsMandatory(v);
    assert forall x :: x in p.sources[..i + 1] <==> x in p.sources[..i] || x == v;
  }

  lemma AllMandatory(p: Problem)
    requires p.Valid()
    ensures MandatoryAmong(p, p.sources) == p.Mandatory()
  {
    forall v | v in p.Mandatory() ensures v in p.sources { SourceMask(p, v); }
  }

  class ExactSearch {
    const p: Problem
    const maxExplored: nat
    var included: seq<bool>
    var excluded: seq<bool>
    var current: seq<nat>
    var currentWeight: nat
    var currentProtected: nat
    var best: Incumbent
    var aborted: bool
    var infeasibilityPath: Option<seq<nat>>
    var explored: nat
    var pruned: nat
    var pathsChecked: nat

    ghost function Here(): Position
      reads this
    {
      Position(included, excluded, current, currentWeight, currentProtected)
    }

    ghost predicate Valid()
      reads this
    {
      && p.Valid() && PositionOk(p, Here()) && IncumbentOk(p, best)
      && (infeasibilityPath.Some? ==> WitnessOk(p, infeasibilityPath.value))
      && (aborted <==> explored > maxExplored) && explored <= maxExplored + 1
    }

    /** The count of explored positions that the search from here cannot exceed. */
    ghost function Worst(): (n: nat)
      reads this
      ensures n > explored
    {
      explored + Pow2(Undecided(p, Marked(included), Marked(excluded)))
    }

    /** The mandatory members are in, and branching from the root leads here. */
    ghost predicate Ready()
      reads this
    {
      p.Valid() && p.Mandatory() <= Marked(included) && Onward(p, Marked(included), Marked(excluded))
    }

    constructor (p: Problem, maxExplored: nat)
      requires p.Valid()
      ensures Valid() && this.p == p && this.maxExplored == maxExplored
      ensures best == NoIncumbent && infeasibilityPath == None && !aborted && current == []
      ensures Marked(excluded) == {} && explored == 0
    {
      this.p := p;
      this.maxExplored := maxExplored;
      included := seq(p.NodeCount(), _ => false);
      excluded := seq(p.NodeCount(), _ => false);
      current, currentWeight, currentProtected := [], 0, 0;
      best, aborted, infeasibilityPath := NoIncumbent, false, None;
      explored, pruned, pathsChecked := 0, 0, 0;
      new;
      assert Marked(included) == {} == Elements(current);
      SumEmpty(p.weights);
      SumEmpty(Flags(p.isProtected));
    }

    method Include(node: nat)
      requires Valid() && node < p.NodeCount() && !included[node]
      modifies `included, `current, `currentWeight, `currentProtected
      ensures Valid() && Here() == Taken(p, old(Here()), node)
      ensures Marked(included) == Marked(old(included)) + {node}
    {
      TakenOk(p, Here(), node);
      included := included[node := true];
      current := current + [node];
      currentWeight := currentWeight + p.weights[node];
      if p.isProtected[node] {
        currentProtected := currentProtected + 1;
      }
    }

    /** Undoes the inclusion of a member, wherever it stands in the list. */
    method Uninclude(node: nat)
      requires Valid() && node in current && node < |included|
      modifies `included, `current, `currentWeight, `currentProtected
      ensures Valid() && included == old(included)[node := false] && current == Without(old(current), node)
      ensures excluded == old(excluded)
    {
      PositionFacts(p, Here());
      RemovedOk(p, Here(), node);
      hide Problem.Valid, IncumbentOk, WitnessOk, Marked, PositionOk, Without, Elements, Distinct;
      included := included[node := false];
      current := DropMember(current, node);
      currentWeight := currentWeight - p.weights[node];
      if p.isProtected[node] {
        currentProtected := currentProtected - 1;
      }
    }

    /** A position without residual path: keep the included set when it is valid and better. */
    method RecordLeaf()
      requires Valid() && Ready() && !HasResidualPath(p, Marked(included))
      requires |current| <= p.maxMembers && currentWeight <= p.maxTotalWeight
      modifies `best
      ensures Valid() && Improved(p, old(best), best)
      ensures Settled(p, best, Marked(included), Marked(excluded))
    {
      hide Problem.Valid, Settled, WitnessOk, ObjectiveLess, Feasible, ObjectiveOf, PositionOk, Marked, Sorted, IncumbentOk, Improved, Distinct, Elements, Onward, Reaches, HasResidualPath;
      ListsMembers(p, Here());
      ImprovedReflexive(p, best);
      var verdict := VerifyCut(p, current);
      if verdict.Rejected? {
        LeafRejected(p, best, Here());
        return;
      }
      LeafReached(p, Marked(included), Marked(excluded));
      LeafAccepted(p, best, Here(), verdict.objective);
      if best.NoIncumbent? || ObjectiveLess(verdict.objective, best.objective, p.minimizeProtected) {
        best := Incumbent(Sorted(current), verdict.objective);
      }
    }

    /** Pruning by the disjoint-path bound; true when nothing below can beat the incumbent. */
    method Prune() returns (hopeless: bool)
      requires Valid() && best.Incumbent?
      modifies `pruned, `pathsChecked
      ensures Valid() && (hopeless ==> Settled(p, best, Marked(included), Marked(excluded)))
    {
      hide Problem.Valid, WitnessOk, ObjectiveLess, IncumbentOk, Settled, PositionOk, Marked, Uncompletable, Reaches, Packing, PackingWeight, HasResidualPath, TargetWalk, Consumed;
      CurrentCount(p, Here());
      ghost var I, E := Marked(included), Marked(excluded);
      var completable, bound, barrier, checked, paths := DisjointPathBound(p, included, excluded, BOUND_ITERATIONS);
      pathsChecked := pathsChecked + checked;
      if !completable {
        NothingLeft(p, best, I, E);
        return true;
      }
      var lower := Objective(currentProtected, currentWeight + bound, |current|, []);
      if ObjectiveLess(best.objective, lower, p.minimizeProtected) {
        pruned := pruned + 1;
        PackingPrunes(p, best, I, E, paths);
        return true;
      }
      hopeless := false;
    }

    /** Takes one child of the branching step and comes back. */
    method TryChild(node: nat)
      requires Valid() && Ready() && !aborted && IsOpen(p, Marked(excluded), node) && !included[node]
      requires Onward(p, Marked(included) + {node}, Marked(excluded))
      modifies this
      decreases Undecided(p, Marked(included) + {node}, Marked(excluded)), 5
      ensures Valid() && Here() == old(Here()) && Improved(p, old(best), best)
      ensures old(explored) <= explored <= old(explored + Pow2(Undecided(p, Marked(included) + {node}, Marked(excluded))))
      ensures !aborted ==> Settled(p, best, Marked(included) + {node}, Marked(excluded))
      ensures old(infeasibilityPath).Some? ==> infeasibilityPath == old(infeasibilityPath)
      ensures !aborted && best.NoIncumbent? && old(infeasibilityPath).None? ==>
        (infeasibilityPath.Some? <==> MeetsBarren(p, old(Marked(included)) + {node}, old(Marked(excluded))))
    {
      hide Problem.Valid, IncumbentOk, Settled, WitnessOk, Onward, RootOpen, MeetsBarren, LeastTargetWalk, Improved, Marked, Undecided,
        BarrenAtOnce, Without, Barren, Fits, AtRoot;
      ghost var before := Here();
      Include(node);
      assert current != [];
      Search();
      LastMember(before.current, node);
      Uninclude(node);
      TakenThenDropped(p, before, Here(), node);
    }

    /** One step of the branching loop; stops when the budget ends. */
    method BranchStep(path: seq<nat>, i: nat, done: seq<nat>, ghost I: set<nat>, ghost E: set<nat>)
      returns (stop: bool, excludedHere: seq<nat>)
      requires Valid() && Ready() && !aborted && I == Marked(included) && i < |path| && Distinct(path)
      requires |included| == |excluded| == p.NodeCount() == |p.isSource|
      requires forall j :: 0 <= j < |path| ==> path[j] < p.NodeCount() && !included[path[j]]
      requires forall j :: 0 <= j < |path| ==> path[j] !in I && !p.IsMandatory(path[j])
      requires LeastTargetWalk(Residual(p, I), path)
      requires Branching(p, best, I, E, path, i, done, Marked(excluded))
      modifies this
      decreases Undecided(p, I, E), 0
      ensures Valid() && |excluded| == p.NodeCount() && Here() == old(Here()).(excluded := excluded)
      ensures old(explored) <= explored < old(Worst()) && Improved(p, old(best), best)
      ensures !stop ==> Worst() <= old(Worst())
      ensures stop <==> aborted
      ensures Branching(p, best, I, E, path, if stop then i else i + 1, excludedHere, Marked(excluded))
      ensures old(infeasibilityPath).Some? ==> infeasibilityPath == old(infeasibilityPath)
      ensures !stop && best.NoIncumbent? && old(infeasibilityPath).None? ==>
        (infeasibilityPath.Some? <==> StepMeets(p, I, E, path, i))
    {
      hide Problem.Valid, PositionOk, IncumbentOk, Settled, WitnessOk, Branching, Marked, LeastTargetWalk, Onward, MeetsBarren, StepMeets;
      excludedHere := done;
      var node := path[i];
      if excluded[node] || !p.containable[node] {
        SkippedMeetsNothing(p, best, I, E, path, i, excludedHere, excluded);
        StepSkipped(p, best, I, E, path, i, excludedHere, excluded);
        return false, excludedHere;
      }
      ghost var at, before := Here(), best;
      StepMeasure(p, I, E, path, i, excludedHere, best, excluded);
      EarlierClosed(p, best, I, E, path, i, excludedHere, Marked(excluded));
      OnwardChild(p, I, Marked(excluded), path, i);
      UndecidedHalves(p, I, Marked(excluded), node);
      TakenMeets(p, best, I, E, path, i, excludedHere, Marked(excluded));
      TryChild(node);
      BranchingImproved(p, before, best, I, E, path, i, excludedHere, Marked(excluded));
      if aborted {
        return true, excludedHere;
      }
      if p.IsMandatory(node) {
        // Every mandatory node is included before the search, so no residual path shows one.
        return true, excludedHere;
      }
      StepTaken(p, best, I, E, path, i, excludedHere, excluded);
      MarkedUpdate(excluded, node, true);
      ExcludedFree(p, at, excluded[node := true]);
      excluded := excluded[node := true];
      excludedHere := excludedHere + [node];
      stop := false;
    }

    /** The branching loop: step by step, take the node, then exclude it for the later steps. */
    method BranchSteps(path: seq<nat>, ghost I: set<nat>, ghost E: set<nat>) returns (i: nat, excludedHere: seq<nat>)
      requires Valid() && Ready() && !aborted && I == Marked(included) && E == Marked(excluded)
      requires LeastTargetWalk(Residual(p, I), path)
      modifies this
      decreases Undecided(p, I, E), 1
      ensures Valid() && |excluded| == p.NodeCount() && Here() == old(Here()).(excluded := excluded)
      ensures old(explored) <= explored < old(Worst()) && Improved(p, old(best), best)
      ensures Branching(p, best, I, E, path, i, excludedHere, Marked(excluded)) && (!aborted ==> i == |path|)
      ensures old(infeasibilityPath).Some? ==> infeasibilityPath == old(infeasibilityPath)
      ensures !aborted && best.NoIncumbent? && old(infeasibilityPath).None? ==>
        (infeasibilityPath.Some? <==> MetUpTo(p, I, E, path, |path|))
    {
      hide Problem.Valid, PositionOk, IncumbentOk, Settled, WitnessOk, LeastTargetWalk, Branching, Marked, Onward, Improved,
        MetUpTo, StepMeets;
      PathFacts(p, I, path);
      CurrentCount(p, Here());
      PathUndecided(p, included, path);
      OnwardClear(p, I, E);
      excludedHere := [];
      BranchingBegins(p, best, I, E, path);
      ImprovedReflexive(p, best);
      NothingMet(p, I, E, path);
      i := 0;
      var stop := false;
      while i < |path| && !stop
        invariant i <= |path| && Valid() && Here() == old(Here()).(excluded := excluded) && |excluded| == p.NodeCount()
        invariant (stop <==> aborted) && old(explored) <= explored < old(Worst()) && Improved(p, old(best), best)
        invariant !stop ==> Worst() <= old(Worst())
        invariant Branching(p, best, I, E, path, i, excludedHere, Marked(excluded))
        invariant old(infeasibilityPath).Some? ==> infeasibilityPath == old(infeasibilityPath)
        invariant !stop && best.NoIncumbent? && old(infeasibilityPath).None? ==>
          (infeasibilityPath.Some? <==> MetUpTo(p, I, E, path, i))
        decreases |path| - i, !stop
      {
        ghost var before := best;
        MetNext(p, I, E, path, i);
        BranchingClear(p, best, I, E, path, i, excludedHere, Marked(excluded));
        OnwardExcluding(p, I, E, Marked(excluded));
        stop, excludedHere := BranchStep(path, i, excludedHere, I, E);
        if best.NoIncumbent? { NoneBefore(p, before, best); }
        ImprovedTransitive(p, old(best), before, best);
        if !stop {
          i := i + 1;
        }
      }
    }

    /** Branches on the path, then lifts the exclusions; at the root a path that yields nothing is kept. */
    method Branch(path: seq<nat>)
      requires Valid() && Ready() && !aborted
      requires LeastTargetWalk(Residual(p, Marked(included)), path)
      modifies this
      decreases Undecided(p, Marked(included), Marked(excluded)), 2
      ensures Valid() && Here() == old(Here()) && Improved(p, old(best), best)
      ensures old(explored) <= explored < old(Worst())
      ensures !aborted ==> Settled(p, best, Marked(included), Marked(excluded))
      ensures old(infeasibilityPath).Some? ==> infeasibilityPath == old(infeasibilityPath)
      ensures !aborted && best.NoIncumbent? && AtRoot(old(Here())) && AllContainable(p, path) ==> infeasibilityPath.Some?
      ensures !aborted && best.NoIncumbent? && MetUpTo(p, old(Marked(included)), old(Marked(excluded)), path, |path|)
        ==> infeasibilityPath.Some?
      ensures !aborted && best.NoIncumbent? && old(infeasibilityPath).None? && infeasibilityPath.Some? ==>
        || MetUpTo(p, old(Marked(included)), old(Marked(excluded)), path, |path|)
        || (old(current) == [] && AllContainable(p, path))
    {
      hide Problem.Valid, PositionOk, IncumbentOk, Settled, WitnessOk, LeastTargetWalk, Branching, Marked, Onward, AllContainable, Improved,
        MetUpTo, Undecided, RootOpen, Elements, Distinct;
      PathFacts(p, Marked(included), path);
      CurrentCount(p, Here());
      ghost var at, I, E := Here(), Marked(included), Marked(excluded);
      var i, excludedHere := BranchSteps(path, I, E);
      BranchingEnds(p, best, I, E, path, i, excludedHere, excluded);
      if !aborted && E == {} && AllContainable(p, path) { AllExcluded(p, best, I, path, excludedHere, excluded); }
      RestoreExcluded(excludedHere);
      MaskDetermined(excluded, at.excluded);
      KeepRootPath(path, |excludedHere| == |path|);
    }

    /** A path whose every node failed is a witness when nothing was taken before it. */
    method KeepRootPath(path: seq<nat>, allTried: bool)
      requires Valid() && p.Mandatory() <= Marked(included) && LeastTargetWalk(Residual(p, Marked(included)), path)
      requires allTried ==> AllContainable(p, path)
      modifies `infeasibilityPath
      ensures Valid()
      ensures infeasibilityPath ==
        if !aborted && best.NoIncumbent? && allTried && current == [] && old(infeasibilityPath).None? then Some(path)
        else old(infeasibilityPath)
    {
      hide Problem.Valid, PositionOk, IncumbentOk, WitnessOk, LeastTargetWalk, AllContainable;
      if !aborted && best.NoIncumbent? && allTried {
        if current == [] && infeasibilityPath.None? {
          RootWitness(p, Here(), path);
          infeasibilityPath := Some(path);
        }
      }
    }

    method RestoreExcluded(nodes: seq<nat>)
      requires forall i :: 0 <= i < |nodes| ==> nodes[i] < |excluded|
      modifies `excluded
      ensures |excluded| == old(|excluded|) && Marked(excluded) == Marked(old(excluded)) - Elements(nodes)
    {
      for i := 0 to |nodes|
        invariant |excluded| == old(|excluded|) && Marked(excluded) == Marked(old(excluded)) - Elements(nodes[..i])
      {
        assert nodes[..i + 1] == nodes[..i] + [nodes[i]];
        ElementsAppend(nodes[..i], nodes[i]);
        MarkedUpdate(excluded, nodes[i], false);
        excluded := excluded[nodes[i] := false];
      }
      assert nodes[..|nodes|] == nodes;
    }

    /** Explores every completion of the current position, unless the budget ends first. */
    method Search()
      requires Valid() && Ready()
      modifies this
      decreases Undecided(p, Marked(included), Marked(excluded)), 4
      ensures Valid() && Here() == old(Here()) && Improved(p, old(best), best)
      ensures old(explored) <= explored <= old(Worst()) && (!old(aborted) ==> explored > old(explored))
      ensures !aborted ==> Settled(p, best, Marked(included), Marked(excluded))
      ensures old(infeasibilityPath).Some? ==> infeasibilityPath == old(infeasibilityPath)
      ensures !aborted && best.NoIncumbent? && AtRoot(old(Here())) && RootOpen(p) ==> infeasibilityPath.Some?
      ensures !aborted && best.NoIncumbent? && MeetsBarren(p, old(Marked(included)), old(Marked(excluded)))
        ==> infeasibilityPath.Some?
      ensures !aborted && best.NoIncumbent? && old(infeasibilityPath).None? && infeasibilityPath.Some? ==>
        MeetsBarren(p, old(Marked(included)), old(Marked(excluded))) || (old(current) == [] && RootOpen(p))
      ensures !aborted && old(infeasibilityPath).None? ==> forall path ::
        LeastTargetWalk(Residual(p, old(Marked(included))), path) && Barren(p, path) && Fits(p, old(Marked(included)))
        ==> infeasibilityPath == if |path| <= MAX_CERTIFICATE_NODES then Some(path) else None
    {
      hide Problem.Valid, PositionOk, IncumbentOk, Settled, WitnessOk, Feasible, HasResidualPath, LeastTargetWalk, Uncompletable, Onward, RootOpen, AllContainable, Marked,
        MeetsBarren, PathMeets, Barren, Undecided, Distinct, Elements;
      if aborted {
        return;
      }
      CurrentCount(p, Here());
      if current == [] { RootFacts(p, Here()); }
      explored := explored + 1;
      if explored > maxExplored {
        aborted := true;
        return;
      }
      if |current| > p.maxMembers || currentWeight > p.maxTotalWeight {
        BoundsExceeded(p, Marked(included), Marked(excluded));
        MeetsNothing(p, Marked(included), Marked(excluded));
        NothingLeft(p, best, Marked(included), Marked(excluded));
        return;
      }
      var path := ShortestResidualPath(p, included);
      if path == [] {
        MeetsNothing(p, Marked(included), Marked(excluded));
        NoLeastWalk(p, Marked(included));
        RecordLeaf();
        return;
      }
      MeetsOn(p, Marked(included), Marked(excluded), path);
      OnlyLeast(p, Marked(included), path);
      if current == [] && RootOpen(p) { RootPath(p, Here(), path); }
      OpenRoot(p, Here(), path);
      Explore(path);
    }

    /** Goes on from a residual path: a barren one ends the branch, otherwise bound, then branch. */
    method Explore(path: seq<nat>)
      requires Valid() && Ready() && !aborted && LeastTargetWalk(Residual(p, Marked(included)), path)
      modifies this
      decreases Undecided(p, Marked(included), Marked(excluded)), 3
      ensures Valid() && Here() == old(Here()) && Improved(p, old(best), best)
      ensures old(explored) <= explored < old(Worst())
      ensures !aborted ==> Settled(p, best, Marked(included), Marked(excluded))
      ensures old(infeasibilityPath).Some? ==> infeasibilityPath == old(infeasibilityPath)
      ensures !aborted && best.NoIncumbent? && AtRoot(old(Here())) && AllContainable(p, path) ==> infeasibilityPath.Some?
      ensures !aborted && best.NoIncumbent? && PathMeets(p, old(Marked(included)), old(Marked(excluded)), path)
        ==> infeasibilityPath.Some?
      ensures !aborted && best.NoIncumbent? && old(infeasibilityPath).None? && infeasibilityPath.Some? ==>
        PathMeets(p, old(Marked(included)), old(Marked(excluded)), path) || (old(current) == [] && AllContainable(p, path))
      ensures !aborted && old(infeasibilityPath).None? && Barren(p, path) ==>
        infeasibilityPath == if |path| <= MAX_CERTIFICATE_NODES then Some(path) else None
    {
      hide Problem.Valid, PositionOk, IncumbentOk, Settled, WitnessOk, Feasible, HasResidualPath, LeastTargetWalk, Uncompletable, Onward,
        MetUpTo;
      PathFacts(p, Marked(included), path);
      OnlyLeast(p, Marked(included), path);
      var containable := AnyContainable(p, path);
      if !containable {
        BarrenPath(p, Marked(included), Marked(excluded), path);
        if infeasibilityPath.None? && |path| <= MAX_CERTIFICATE_NODES {
          infeasibilityPath := Some(path);
        }
        NothingLeft(p, best, Marked(included), Marked(excluded));
        return;
      }
      if best.Incumbent? {
        var hopeless := Prune();
        if hopeless {
          return;
        }
      }
      Branch(path);
    }

    /** Includes the mandatory sources, then searches. */
    method Run() returns (solution: CutSolution)
      requires Valid() && best == NoIncumbent && !aborted && explored == 0 && current == [] && infeasibilityPath == None
      requires Marked(excluded) == {}
      modifies this
      ensures SolutionOk(p, maxExplored, solution)
      ensures maxExplored >= Sufficient(p) ==> !solution.budgetExhausted
    {
      IncludeMandatory();
      SearchAll();
      solution := Conclude();
    }

    /** The search from the mandatory members, with nothing excluded. */
    method SearchAll()
      requires Valid() && best == NoIncumbent && !aborted && explored == 0 && infeasibilityPath == None
      requires Marked(excluded) == {} && Marked(included) == p.Mandatory()
      modifies this
      ensures Valid() && Marked(included) == p.Mandatory() && 1 <= explored <= Sufficient(p)
      ensures !aborted ==> Settled(p, best, Marked(included), {})
      ensures !aborted && best.NoIncumbent? ==> (infeasibilityPath.Some? <==> WitnessStored(p))
      ensures !aborted ==> forall path :: BarrenAtOnce(p, path) ==>
        infeasibilityPath == if |path| <= MAX_CERTIFICATE_NODES then Some(path) else None
    {
      hide MeetsBarren, RootOpen, LeastTargetWalk, Barren, Reaches, Settled, IncumbentOk, WitnessOk, Problem.Valid, Fits, Improved;
      OnwardAtRoot(p);
      ListsMembers(p, Here());
      NoElements(current);
      SufficientBounds(p, Marked(included), Marked(excluded));
      Search();
    }

    method IncludeMandatory()
      requires Valid() && current == []
      modifies `included, `current, `currentWeight, `currentProtected
      ensures Valid() && Marked(included) == p.Mandatory()
    {
      hide Reaches;
      PropagationShape(p);
      ListsMembers(p, Here());
      for i := 0 to |p.sources|
        invariant Valid() && Marked(included) == MandatoryAmong(p, p.sources[..i])
      {
        var source := p.sources[i];
        MandatoryNext(p, i, included);
        if p.IsMandatory(source) {
          Include(source);
        }
      }
      assert p.sources[..|p.sources|] == p.sources;
      AllMandatory(p);
    }

    /** Reads the outcome off the finished search. */
    method Conclude() returns (solution: CutSolution)
      requires Valid() && Marked(included) == p.Mandatory() && 1 <= explored <= Sufficient(p)
      requires !aborted ==> Settled(p, best, Marked(included), {})
      requires !aborted && best.NoIncumbent? ==> (infeasibilityPath.Some? <==> WitnessStored(p))
      requires !aborted ==> forall path :: BarrenAtOnce(p, path) ==>
        infeasibilityPath == if |path| <= MAX_CERTIFICATE_NODES then Some(path) else None
      ensures SolutionOk(p, maxExplored, solution)
      ensures maxExplored >= Sufficient(p) ==> !solution.budgetExhausted
    {
      hide Reaches, Settled, RootOpen, BestReached, Feasible, Problem.Valid, UniqueOptimum, Infeasible, PositionOk, WitnessOk;
      solution := CutSolution(InvalidProblem, [], None, None, explored, aborted);
      if best.Incumbent? {
        solution := solution.(members := best.members, objective := Some(best.objective),
          status := if aborted then FeasibleNotProvenOptimal else ProvenOptimal);
        if !aborted { ConcludesBest(p, best, solution); }
        FeasibleNotBarren(p, Elements(best.members));
        return;
      }
      if aborted {
        solution := solution.(status := LimitReachedNoSolution);
        return;
      }
      solution := solution.(status := ProvenInfeasible, infeasibilityPath := infeasibilityPath);
      ConcludesBest(p, best, solution);
    }
  }

  lemma ConcludesBest(p: Problem, best: Incumbent, s: CutSolution)
    requires p.Valid() && IncumbentOk(p, best) && Settled(p, best, p.Mandatory(), {})
    requires s.HasSolution() == best.Incumbent? && (best.Incumbent? ==> s.members == best.members)
    ensures BestReached(p, s)
    ensures p.OverlapSettled() ==> if s.HasSolution() then UniqueOptimum(p, Elements(s.members)) else Infeasible(p)
  {
    SettledIsBest(p, best, s);
    hide BestReached, Settled, Reaches;
    if p.OverlapSettled() { BestIsOptimal(p, s); }
  }

  lemma OnwardAtRoot(p: Problem)
    requires p.Valid()
    ensures Onward(p, p.Mandatory(), {})
  {
  }

  /** Nothing taken and nothing excluded. */
  ghost predicate AtRoot(at: Position) {
    at.current == [] && Marked(at.excluded) == {}
  }

  lemma RootFacts(p: Problem, at: Position)
    requires p.Valid() && PositionOk(p, at) && at.current == []
    ensures Marked(at.included) == {} && at.weight == 0 && p.maxMembers >= 1
    ensures RootOpen(p) ==> HasResidualPath(p, {})
  {
    assert Elements(at.current) == {};
    SumEmpty(p.weights);
    if RootOpen(p) {
      var path :| LeastTargetWalk(Residual(p, {}), path) && AllContainable(p, path);
      assert TargetWalk(Residual(p, {}), path);
    }
  }

  lemma RootPath(p: Problem, at: Position, path: seq<nat>)
    requires p.Valid() && PositionOk(p, at) && at.current == [] && RootOpen(p)
    requires LeastTargetWalk(Residual(p, Marked(at.included)), path)
    ensures AllContainable(p, path)
  {
    RootFacts(p, at);
    hide LeastTargetWalk;
    var other :| LeastTargetWalk(Residual(p, {}), other) && AllContainable(p, other);
    LeastTargetWalkUnique(Residual(p, {}), path, other);
  }

  /** Drops a member from the list: from the back in one step, otherwise by searching for it. */
  method DropMember(s: seq<nat>, v: nat) returns (r: seq<nat>)
    requires v in s && Distinct(s)
    ensures r == Without(s, v)
  {
    if s[|s| - 1] == v {
      assert IndexOf(s, v) == |s| - 1;
      return s[..|s| - 1];
    }
    var i := FindMember(s, v);
    return s[..i] + s[i + 1..];
  }

  method FindMember(s: seq<nat>, v: nat) returns (i: nat)
    requires v in s
    ensures i < |s| && i == IndexOf(s, v)
  {
    i := 0;
    while s[i] != v
      invariant i < |s| && forall j :: 0 <= j < i ==> s[j] != v
      decreases |s| - i
    {
      i := i + 1;
    }
  }

  /** The list without the first occurrence of `v`. */
  function Without(s: seq<nat>, v: nat): seq<nat> {
    var i := IndexOf(s, v);
    if i < |s| then s[..i] + s[i + 1..] else s
  }

  /** Taking a node and dropping it again restores the position. */
  lemma TakenThenDropped(p: Problem, before: Position, after: Position, v: nat)
    requires p.Valid() && PositionOk(p, before) && PositionOk(p, after) && v < p.NodeCount() && !before.included[v]
    requires after.included == Taken(p, before, v).included[v := false]
    requires after.current == Without(Taken(p, before, v).current, v)
    requires after.excluded == before.excluded
    ensures after == before
  {
    assert after.included == before.included;
    PositionFacts(p, before);
    assert IndexOf(before.current + [v], v) == |before.current|;
    assert after.current == before.current;
  }

  lemma RemovedOk(p: Problem, at: Position, v: nat)
    requires p.Valid() && PositionOk(p, at) && v in at.current && v < |at.included|
    ensures at.weight >= p.weights[v] && (p.isProtected[v] ==> at.protectedCount >= 1)
    ensures PositionOk(p, Position(at.included[v := false], at.excluded, Without(at.current, v), at.weight - p.weights[v],
      at.protectedCount - if p.isProtected[v] then 1 else 0))
  {
    PositionFacts(p, at);
    MarkedUpdate(at.included, v, false);
    SumRemove(p.weights, Marked(at.included), v);
    SumRemove(Flags(p.isProtected), Marked(at.included), v);
    RemovedElements(at.current, IndexOf(at.current, v));
  }

  lemma CurrentCount(p: Problem, at: Position)
    requires p.Valid() && PositionOk(p, at)
    ensures |at.current| == |Marked(at.included)| && at.weight == Weight(p, Marked(at.included))
    ensures at.protectedCount == ProtectedInclusions(p, Marked(at.included))
    ensures |at.included| == |at.excluded| == p.NodeCount()
  {
    PositionFacts(p, at);
  }

  lemma ExcludedFree(p: Problem, at: Position, excluded: seq<bool>)
    requires p.Valid() && PositionOk(p, at) && |excluded| == p.NodeCount()
    ensures PositionOk(p, at.(excluded := excluded))
  {
  }

  lemma ListsMembers(p: Problem, at: Position)
    requires p.Valid() && PositionOk(p, at)
    ensures Distinct(at.current) && Elements(at.current) == Marked(at.included)
  {
  }

  lemma ImprovedReflexive(p: Problem, best: Incumbent)
    ensures Improved(p, best, best)
  {
  }

  lemma LeafAccepted(p: Problem, best: Incumbent, at: Position, objective: Objective)
    requires p.Valid() && PositionOk(p, at) && IncumbentOk(p, best)
    requires Feasible(p, Marked(at.included)) && objective == ObjectiveOf(p, Marked(at.included))
    requires Reaches(p, p.Mandatory(), Marked(at.included))
    ensures var kept := if best.NoIncumbent? || ObjectiveLess(objective, best.objective, p.minimizeProtected)
                        then Incumbent(Sorted(at.current), objective) else best;
      IncumbentOk(p, kept) && Improved(p, best, kept) && Settled(p, kept, Marked(at.included), Marked(at.excluded))
  {
    hide ObjectiveLess, ObjectiveOf, Settled, Feasible, Problem.Valid, Reaches;
    SortedDistinct(at.current);
    ObjectiveIrreflexive(objective, p.minimizeProtected);
    var kept := if best.NoIncumbent? || ObjectiveLess(objective, best.objective, p.minimizeProtected)
                then Incumbent(Sorted(at.current), objective) else best;
    LeafSettled(p, kept, Marked(at.included), Marked(at.excluded));
  }

  /** A residual path without containable node: nothing completes, and the path says so. */
  lemma BarrenPath(p: Problem, included: set<nat>, excluded: set<nat>, path: seq<nat>)
    requires p.Valid() && LeastTargetWalk(Residual(p, included), path)
    requires Barren(p, path)
    ensures Uncompletable(p, included, excluded) && (|path| <= MAX_CERTIFICATE_NODES ==> WitnessOk(p, path))
  {
    hide AtMost;
    WitnessFromPath(p, included, path);
    NoOpenNode(p, included, excluded, {}, path);
  }

  lemma PathFacts(p: Problem, removed: set<nat>, path: seq<nat>)
    requires p.Valid() && LeastTargetWalk(Residual(p, removed), path)
    ensures forall i :: 0 <= i < |path| ==> path[i] < p.NodeCount() && path[i] !in removed
    ensures Distinct(path) && TargetWalk(Residual(p, removed), path)
  {
  }

  lemma LeafRejected(p: Problem, best: Incumbent, at: Position)
    requires p.Valid() && PositionOk(p, at)
    requires !HasResidualPath(p, Marked(at.included)) && !Feasible(p, Marked(at.included))
    ensures Settled(p, best, Marked(at.included), Marked(at.excluded))
  {
    forall c ensures !Reaches(p, Marked(at.included), c) {}
  }

  lemma PackingPrunes(p: Problem, best: Incumbent, included: set<nat>, excluded: set<nat>, paths: seq<seq<nat>>)
    requires p.Valid() && best.Incumbent? && Packing(p, included, excluded, paths)
    requires ObjectiveLess(best.objective,
      Objective(ProtectedInclusions(p, included), Weight(p, included) + PackingWeight(p, excluded, paths), |included|, []),
      p.minimizeProtected)
    ensures Settled(p, best, included, excluded)
  {
    forall c | Completion(p, included, excluded, c)
      ensures Weight(p, included) + PackingWeight(p, excluded, paths) <= Weight(p, c)
    {
      PackingBounds(p, included, excluded, paths, c);
    }
    PrunedDominated(p, best, included, excluded, PackingWeight(p, excluded, paths));
  }

  /** Half-way through a branching step: the open nodes of the first `i` steps are excluded, and
      what they could contribute is dominated. */
  ghost predicate Branching(p: Problem, best: Incumbent, included: set<nat>, excluded: set<nat>,
    path: seq<nat>, i: nat, excludedHere: seq<nat>, now: set<nat>)
    requires p.Valid()
  {
    && i <= |path| && Elements(excludedHere) == OpenOn(p, excluded, path[..i])
    && now == excluded + Elements(excludedHere) && excluded !! Elements(excludedHere)
    && |excludedHere| <= i && (|excludedHere| == i ==> forall j :: 0 <= j < i ==> IsOpen(p, excluded, path[j]))
    && DominatedUpTo(p, best, included, excluded, now)
  }

  lemma BranchingBegins(p: Problem, best: Incumbent, included: set<nat>, excluded: set<nat>, path: seq<nat>)
    requires p.Valid()
    ensures Branching(p, best, included, excluded, path, 0, [], excluded)
  {
  }

  lemma StepSkipped(p: Problem, best: Incumbent, included: set<nat>, excluded: set<nat>, path: seq<nat>, i: nat,
    excludedHere: seq<nat>, now: seq<bool>)
    requires p.Valid() && i < |path| && path[i] < p.NodeCount() == |now| && Distinct(path)
    requires Branching(p, best, included, excluded, path, i, excludedHere, Marked(now))
    requires now[path[i]] || !p.containable[path[i]]
    ensures Branching(p, best, included, excluded, path, i + 1, excludedHere, Marked(now))
  {
    hide DominatedUpTo;
    assert path[..i + 1] == path[..i] + [path[i]];
    OpenAppend(p, excluded, path[..i], path[i]);
    PathStepNew(p, excluded, path, i);
    assert now[path[i]] <==> path[i] in Marked(now);
  }

  /** Whatever was open before step `i` is excluded by now. */
  lemma EarlierClosed(p: Problem, best: Incumbent, included: set<nat>, excluded: set<nat>, path: seq<nat>, i: nat,
    excludedHere: seq<nat>, now: set<nat>)
    requires p.Valid() && i <= |path| && Branching(p, best, included, excluded, path, i, excludedHere, now)
    ensures excluded <= now && forall j :: 0 <= j < i ==> !IsOpen(p, now, path[j])
  {
    hide DominatedUpTo;
    forall j | 0 <= j < i ensures !IsOpen(p, now, path[j]) {
      assert path[..i][j] == path[j];
      assert IsOpen(p, excluded, path[j]) ==> path[j] in OpenOn(p, excluded, path[..i]);
    }
  }

  lemma BranchingClear(p: Problem, best: Incumbent, included: set<nat>, excluded: set<nat>, path: seq<nat>, i: nat,
    excludedHere: seq<nat>, now: set<nat>)
    requires p.Valid() && Branching(p, best, included, excluded, path, i, excludedHere, now)
    requires included !! excluded && forall j :: 0 <= j < |path| ==> path[j] !in included
    ensures excluded <= now && included !! now
  {
    hide DominatedUpTo;
  }

  /** At the root every containable node of the path ends up excluded. */
  lemma AllExcluded(p: Problem, best: Incumbent, included: set<nat>, path: seq<nat>, excludedHere: seq<nat>, now: seq<bool>)
    requires p.Valid() && Distinct(path) && AllContainable(p, path)
    requires Branching(p, best, included, {}, path, |path|, excludedHere, Marked(now))
    ensures |excludedHere| == |path|
  {
    hide DominatedUpTo;
    assert path[..|path|] == path;
    assert OpenOn(p, {}, path) == Elements(path);
    DistinctIffCount(path);
    DistinctIffCount(excludedHere);
  }

  lemma PathStepNew(p: Problem, excluded: set<nat>, path: seq<nat>, i: nat)
    requires Distinct(path) && i < |path|
    ensures path[i] !in OpenOn(p, excluded, path[..i])
  {
  }

  lemma StepMeasure(p: Problem, included: set<nat>, excluded: set<nat>, path: seq<nat>, i: nat, excludedHere: seq<nat>,
    best: Incumbent, now: seq<bool>)
    requires p.Valid() && i < |path| && path[i] < p.NodeCount() == |now| && path[i] !in included
    requires Branching(p, best, included, excluded, path, i, excludedHere, Marked(now))
    requires !now[path[i]] && p.containable[path[i]]
    ensures IsOpen(p, Marked(now), path[i])
    ensures Undecided(p, included + {path[i]}, Marked(now)) < Undecided(p, included, excluded)
  {
    hide DominatedUpTo;
    UndecidedShrinks(p, included, excluded, Marked(now), path[i]);
  }

  lemma BranchingImproved(p: Problem, before: Incumbent, after: Incumbent, included: set<nat>, excluded: set<nat>,
    path: seq<nat>, i: nat, excludedHere: seq<nat>, now: set<nat>)
    requires p.Valid() && Branching(p, before, included, excluded, path, i, excludedHere, now) && Improved(p, before, after)
    ensures Branching(p, after, included, excluded, path, i, excludedHere, now)
  {
    hide DominatedUpTo, Improved;
    DominatedUpToImproved(p, before, after, included, excluded, now);
  }

  lemma StepTaken(p: Problem, best: Incumbent, included: set<nat>, excluded: set<nat>, path: seq<nat>, i: nat,
    excludedHere: seq<nat>, now: seq<bool>)
    requires p.Valid() && i < |path| && path[i] < p.NodeCount() == |now| && Distinct(path)
    requires Branching(p, best, included, excluded, path, i, excludedHere, Marked(now))
    requires !now[path[i]] && p.containable[path[i]]
    requires LeastTargetWalk(Residual(p, included), path) && Settled(p, best, included + {path[i]}, Marked(now))
    ensures Branching(p, best, included, excluded, path, i + 1, excludedHere + [path[i]], Marked(now[path[i] := true]))
  {
    hide DominatedUpTo, Settled, LeastTargetWalk;
    EarlierClosed(p, best, included, excluded, path, i, excludedHere, Marked(now));
    assert path[..i + 1] == path[..i] + [path[i]];
    OpenAppend(p, excluded, path[..i], path[i]);
    ElementsAppend(excludedHere, path[i]);
    MarkedUpdate(now, path[i], true);
    ChildFinished(p, best, included, excluded, Marked(now), path, i);
  }

  lemma PathUndecided(p: Problem, included: seq<bool>, path: seq<nat>)
    requires p.Valid() && |included| == p.NodeCount() && p.Mandatory() <= Marked(included)
    requires forall i :: 0 <= i < |path| ==> path[i] < p.NodeCount() && path[i] !in Marked(included)
    ensures p.NodeCount() == |p.isSource| == |p.containable|
    ensures forall i :: 0 <= i < |path| ==> !included[path[i]] && !p.IsMandatory(path[i])
  {
    forall i | 0 <= i < |path| ensures !included[path[i]] && !p.IsMandatory(path[i]) {
      assert path[i] !in p.Mandatory();
    }
  }

  lemma BranchingEnds(p: Problem, best: Incumbent, included: set<nat>, excluded: set<nat>, path: seq<nat>, i: nat,
    excludedHere: seq<nat>, now: seq<bool>)
    requires p.Valid() && TargetWalk(Residual(p, included), path) && |now| == p.NodeCount()
    requires Branching(p, best, included, excluded, path, i, excludedHere, Marked(now))
    ensures forall k :: 0 <= k < |excludedHere| ==> excludedHere[k] < |now|
    ensures Marked(now) - Elements(excludedHere) == excluded
    ensures i == |path| ==> Settled(p, best, included, excluded)
    ensures |excludedHere| == |path| ==> AllContainable(p, path)
  {
    hide DominatedUpTo, Settled;
    forall k | 0 <= k < |excludedHere| ensures excludedHere[k] < |now| {
      assert excludedHere[k] in Elements(excludedHere);
    }
    if |excludedHere| == |path| { assert AllContainable(p, path); }
    if i == |path| {
      assert path[..i] == path;
      AllChildrenFinished(p, best, included, excluded, Marked(now), path);
    }
  }

  /** With nothing taken the least path itself is the witness. */
  lemma RootWitness(p: Problem, at: Position, path: seq<nat>)
    requires p.Valid() && PositionOk(p, at) && at.current == [] && p.Mandatory() <= Marked(at.included)
    requires LeastTargetWalk(Residual(p, Marked(at.included)), path) && AllContainable(p, path)
    ensures WitnessOk(p, path) && RootOpen(p)
  {
    RootFacts(p, at);
    assert p.Mandatory() == {};
    assert TargetWalk(Residual(p, {}), path);
  }

  lemma NotAllContainable(p: Problem, path: seq<nat>)
    requires path != [] && AllContainable(p, path)
    ensures !Barren(p, path)
  {
    assert p.containable[path[0]];
  }

  /** A step that is skipped was not open to begin with. */
  lemma SkippedMeetsNothing(p: Problem, best: Incumbent, included: set<nat>, excluded: set<nat>, path: seq<nat>, i: nat,
    excludedHere: seq<nat>, now: seq<bool>)
    requires p.Valid() && i < |path| && path[i] < p.NodeCount() == |now| && Distinct(path)
    requires Branching(p, best, included, excluded, path, i, excludedHere, Marked(now))
    requires now[path[i]] || !p.containable[path[i]]
    ensures !StepMeets(p, included, excluded, path, i)
  {
    hide DominatedUpTo, MeetsBarren;
    PathStepNew(p, excluded, path, i);
    assert now[path[i]] <==> path[i] in Marked(now);
  }

  /** A step that is taken meets what its child meets. */
  lemma TakenMeets(p: Problem, best: Incumbent, included: set<nat>, excluded: set<nat>, path: seq<nat>, i: nat,
    excludedHere: seq<nat>, now: set<nat>)
    requires p.Valid() && i < |path| && path[i] !in included && IsOpen(p, now, path[i])
    requires Branching(p, best, included, excluded, path, i, excludedHere, now)
    ensures StepMeets(p, included, excluded, path, i) <==> MeetsBarren(p, included + {path[i]}, now)
  {
    hide DominatedUpTo, MeetsBarren;
    assert path[i] in Marked(p.containable);
    assert now == excluded + OpenOn(p, excluded, path[..i]);
  }

  lemma NoLeastWalk(p: Problem, included: set<nat>)
    requires !HasResidualPath(p, included)
    ensures forall path :: !LeastTargetWalk(Residual(p, included), path)
  {
    forall path ensures LeastTargetWalk(Residual(p, included), path) ==> TargetWalk(Residual(p, included), path) {}
  }

  lemma OnlyLeast(p: Problem, included: set<nat>, path: seq<nat>)
    requires p.Valid() && LeastTargetWalk(Residual(p, included), path)
    ensures path != [] && forall other :: LeastTargetWalk(Residual(p, included), other) ==> other == path
  {
    assert TargetWalk(Residual(p, included), path);
    forall other | LeastTargetWalk(Residual(p, included), other) ensures other == path {
      LeastTargetWalkUnique(Residual(p, included), path, other);
    }
  }

  lemma NothingMet(p: Problem, included: set<nat>, excluded: set<nat>, path: seq<nat>)
    requires p.Valid()
    ensures !MetUpTo(p, included, excluded, path, 0)
  {
  }

  lemma MetNext(p: Problem, included: set<nat>, excluded: set<nat>, path: seq<nat>, i: nat)
    requires p.Valid() && i < |path|
    ensures MetUpTo(p, included, excluded, path, i + 1) <==>
      MetUpTo(p, included, excluded, path, i) || StepMeets(p, included, excluded, path, i)
  {
    hide StepMeets;
    assert MetUpTo(p, included, excluded, path, i + 1) == exists j :: 0 <= j < i + 1 && StepMeets(p, included, excluded, path, j);
    assert MetUpTo(p, included, excluded, path, i) == exists j :: 0 <= j < i && StepMeets(p, included, excluded, path, j);
  }

  /** Without residual path, or over a bound, branching meets nothing. */
  lemma MeetsNothing(p: Problem, included: set<nat>, excluded: set<nat>)
    requires p.Valid() && (!Fits(p, included) || !HasResidualPath(p, included))
    ensures !MeetsBarren(p, included, excluded)
  {
    hide PathMeets, LeastTargetWalk, HasResidualPath;
    if !HasResidualPath(p, included) { NoLeastWalk(p, included); }
  }

  lemma OpenRoot(p: Problem, at: Position, path: seq<nat>)
    requires p.Valid() && PositionOk(p, at) && LeastTargetWalk(Residual(p, Marked(at.included)), path)
    ensures at.current == [] && AllContainable(p, path) ==> RootOpen(p)
  {
    if at.current == [] { RootFacts(p, at); }
  }

  /** A feasible set meets every path, so no path is barren. */
  lemma FeasibleNotBarren(p: Problem, c: set<nat>)
    requires p.Valid() && Feasible(p, c)
    ensures forall path :: !BarrenAtOnce(p, path)
  {
    hide AtMost;
    forall path ensures !BarrenAtOnce(p, path) {
      if BarrenAtOnce(p, path) {
        FeasibleHitsPath(p, c, p.Mandatory(), path);
      }
    }
  }

  lemma LastMember(s: seq<nat>, v: nat)
    ensures v in s + [v]
  {
    assert (s + [v])[|s|] == v;
  }

  method AnyContainable(p: Problem, path: seq<nat>) returns (any: bool)
    requires p.Valid() && forall i :: 0 <= i < |path| ==> path[i] < p.NodeCount()
    ensures any <==> exists i :: 0 <= i < |path| && p.containable[path[i]]
  {
    for i := 0 to |path|
      invariant forall j :: 0 <= j < i ==> !p.containable[path[j]]
    {
      if p.containable[path[i]] { return true; }
    }
    any := false;
  }

  lemma RemovedElements(s: seq<nat>, i: nat)
    requires i < |s| && Distinct(s)
    ensures Distinct(s[..i] + s[i + 1..]) && Elements(s[..i] + s[i + 1..]) == Elements(s) - {s[i]}
  {
    var r := s[..i] + s[i + 1..];
    forall x | x in Elements(s) && x != s[i] ensures x in Elements(r) {
      var j :| 0 <= j < |s| && s[j] == x;
      assert r[if j < i then j else j - 1] == x;
    }
  }

  /** The exact solver: unique optimum, proof of infeasibility, or an explicit budget outcome. */
  method SolveExact(p: Problem, maxExplored: nat) returns (solution: CutSolution)
    requires p.Valid()
    ensures solution.status.InvalidProblem? <==> p.NodeCount() == 0 || p.sources == [] || p.protectedNodes == []
    ensures !solution.status.InvalidProblem? ==> SolutionOk(p, maxExplored, solution)
    ensures maxExplored >= Sufficient(p) ==> !solution.budgetExhausted
  {
    if p.NodeCount() == 0 || p.sources == [] || p.protectedNodes == [] {
      return CutSolution(InvalidProblem, [], None, None, 0, false);
    }
    var search := new ExactSearch(p, maxExplored);
    solution := search.Run();
  }
}
