/** Greedy construction with minimality restoration, for instances above the exact-search limit. */
module HeuristicSolver {
  import opened Collections
  import opened Resources
  import opened BreadthFirst
  import opened Containment
  import opened ResidualPaths
  import opened CutVerifier
  import opened SearchBounds
  import opened ExactSolver
  import opened Minimality

  /** Smaller weight, then smaller resource identity. */
  predicate Cheaper(p: Problem, u: nat, v: nat)
    requires u < |p.weights| == |p.ids| && v < |p.weights|
  {
    p.weights[u] < p.weights[v] || (p.weights[u] == p.weights[v] && IdLess(p.ids[u], p.ids[v]))
  }

  /** Cheapest containable node of a path; ties go to the smaller resource identity. */
  ghost predicate GreedyPick(p: Problem, path: seq<nat>, v: nat)
    requires p.Valid() && forall i :: 0 <= i < |path| ==> path[i] < p.NodeCount()
  {
    && v in path && v < p.NodeCount() && p.containable[v]
    && forall i :: 0 <= i < |path| && p.containable[path[i]] && path[i] != v ==> Cheaper(p, v, path[i])
  }

  /** The pick has the least weight of the path's containable nodes, and is the first of those in node order. */
  lemma GreedyPickMeans(p: Problem, path: seq<nat>, v: nat)
    requires p.Valid() && forall i :: 0 <= i < |path| ==> path[i] < p.NodeCount()
    ensures GreedyPick(p, path, v) <==>
      && v in path && p.containable[v]
      && (forall u <- path :: p.containable[u] ==> p.weights[v] <= p.weights[u] && (p.weights[v] == p.weights[u] ==> v <= u))
  {
    IdOrder();
    hide IdLess;
    assert forall u <- path :: u < p.NodeCount();
    assert forall u, w :: 0 <= u < w < |p.ids| ==> IdLess(p.ids[u], p.ids[w]) && !IdLess(p.ids[w], p.ids[u]);
    if GreedyPick(p, path, v) {
      forall u <- path | p.containable[u] ensures p.weights[v] <= p.weights[u] && (p.weights[v] == p.weights[u] ==> v <= u) {
        var i :| 0 <= i < |path| && path[i] == u;
        if u != v { assert Cheaper(p, v, path[i]); }
      }
    }
  }

  /** A list the greedy loop can have built: the mandatory sources, then one pick per residual path. */
  ghost predicate GreedyList(p: Problem, members: seq<nat>, start: nat)
    requires p.Valid()
  {
    && start <= |members| && Distinct(members) && (forall i :: 0 <= i < |members| ==> members[i] < p.NodeCount())
    && (forall i :: 0 <= i < |members| ==> p.containable[members[i]])
    && Elements(members[..start]) == p.Mandatory()
    && forall k :: start <= k < |members| ==> GreedyStep(p, members[..k], members[k])
  }

  ghost predicate GreedyStep(p: Problem, before: seq<nat>, v: nat)
    requires p.Valid()
  {
    exists path ::
      && LeastTargetWalk(Residual(p, Elements(before)), path)
      && (forall i :: 0 <= i < |path| ==> path[i] < p.NodeCount()) && GreedyPick(p, path, v)
  }

  ghost predicate Indexed(p: Problem, s: seq<nat>) {
    forall i :: 0 <= i < |s| ==> s[i] < p.NodeCount()
  }

  /** What the greedy solver returns; `greedy` is the list before the deletion pass. */
  ghost predicate HeuristicOk(p: Problem, maxIterations: nat, s: CutSolution, greedy: seq<nat>)
    requires p.Valid()
  {
    && s.status in {FeasibleNotProvenOptimal, ProvenInfeasible, LimitReachedNoSolution}
    && Indexed(p, greedy) && Indexed(p, Sorted(greedy))
    && (!s.budgetExhausted && !s.status.ProvenInfeasible? ==>
          && !HasResidualPath(p, Elements(greedy))
          && (s.status.FeasibleNotProvenOptimal? <==> Feasible(p, Elements(ReverseDeletion(p, Sorted(greedy), 0)))))
    && (s.status.FeasibleNotProvenOptimal? ==>
          && s.members == ReverseDeletion(p, Sorted(greedy), 0)
          && Ascending(s.members) && Feasible(p, Elements(s.members)) && Elements(s.members) <= Elements(greedy)
          && s.objective == Some(ObjectiveOf(p, Elements(s.members)))
          && (Feasible(p, Elements(greedy)) ==> InclusionMinimal(p, Elements(s.members))))
    && (s.status.ProvenInfeasible? ==>
          && Infeasible(p) && s.infeasibilityPath.Some? && Barren(p, s.infeasibilityPath.value)
          && LeastTargetWalk(Residual(p, Elements(greedy)), s.infeasibilityPath.value))
    && (!s.HasSolution() ==> s.members == [] && s.objective == None)
    && (s.budgetExhausted ==> s.status.LimitReachedNoSolution? && s.explored == maxIterations <= p.NodeCount())
    && (s.status.LimitReachedNoSolution? && !s.budgetExhausted ==> !Feasible(p, Elements(greedy)))
    && (s.infeasibilityPath.Some? ==> s.status.ProvenInfeasible?)
    && s.explored == RoundsReported(p, s, greedy)
    && |greedy| + (if s.budgetExhausted then 0 else 1) <= |p.Mandatory()| + maxIterations
  }

  /** One round per greedy pick; a completed run has seen in a last round that no path is left, and a proof of
      infeasibility reports no count at all. */
  ghost function RoundsReported(p: Problem, s: CutSolution, greedy: seq<nat>): int
    requires p.Valid()
  {
    if s.status.ProvenInfeasible? then 0
    else |greedy| - |p.Mandatory()| + if s.budgetExhausted then 0 else 1
  }

  /** A solver answer together with some run that led to it. */
  ghost predicate Answers(p: Problem, maxIterations: nat, s: CutSolution)
    requires p.Valid()
  {
    exists greedy, start :: GreedyList(p, greedy, start) && HeuristicOk(p, maxIterations, s, greedy)
  }

  method SolveHeuristic(p: Problem, maxIterations: nat) returns (solution: CutSolution, ghost greedy: seq<nat>)
    requires p.Valid()
    ensures HeuristicOk(p, maxIterations, solution, greedy)
    ensures exists start :: GreedyList(p, greedy, start)
    ensures solution.explored <= maxIterations && solution.explored <= p.NodeCount() + 1
    ensures maxIterations > p.NodeCount() ==> !solution.budgetExhausted
  {
    hide HeuristicOk, ReverseDeletion, Feasible, InclusionMinimal, HasResidualPath, LeastTargetWalk, GreedyStep, WitnessOk,
      Infeasible, GreedyPick;
    var included, members := MandatoryMembers(p);
    ghost var start := |members|;
    assert members[..start] == members;
    DistinctIffCount(members);
    var iterations := 0;
    var reachedLimit := false;
    while true
      invariant GreedyList(p, members, start) && |included| == p.NodeCount() && Marked(included) == Elements(members)
      invariant iterations == |members| - start && iterations <= maxIterations && |members| <= p.NodeCount()
      decreases p.NodeCount() + 1 - |members|
    {
      if iterations >= maxIterations {
        reachedLimit := true;
        break;
      }
      iterations := iterations + 1;
      var path := ShortestResidualPath(p, included);
      if path == [] {
        break;
      }
      PathFacts(p, Marked(included), path);
      var cheapest := CheapestContainable(p, path);
      if cheapest.None? {
        // The rounds are not reported here.
        solution := CutSolution(ProvenInfeasible, [], None, Some(path), 0, false);
        BarrenAnswer(p, maxIterations, members, path, solution);
        greedy := members;
        return;
      }
      var v := cheapest.value;
      GreedyGrown(p, members, start, included, path, v);
      included := included[v := true];
      members := members + [v];
    }
    greedy := members;
    SortedInRange(p, members);
    if reachedLimit {
      solution := CutSolution(LimitReachedNoSolution, [], None, None, iterations, true);
      ExhaustedAnswer(p, maxIterations, members, solution);
      return;
    }
    DistinctSorted(greedy);
    var restored := RestoreMinimality(p, Sorted(members));
    RestoredFacts(p, greedy, restored);
    var verdict := VerifyCut(p, restored);
    solution := if verdict.Rejected? then CutSolution(LimitReachedNoSolution, [], None, None, iterations, false)
                else CutSolution(FeasibleNotProvenOptimal, restored, Some(verdict.objective), None, iterations, false);
    RestoredAnswer(p, maxIterations, members, restored, solution);
  }

  lemma BarrenAnswer(p: Problem, maxIterations: nat, greedy: seq<nat>, path: seq<nat>, s: CutSolution)
    requires p.Valid() && Distinct(greedy) && Indexed(p, greedy) && LeastTargetWalk(Residual(p, Elements(greedy)), path)
    requires Barren(p, path) && |greedy| < |p.Mandatory()| + maxIterations
    requires s == CutSolution(ProvenInfeasible, [], None, Some(path), 0, false)
    ensures HeuristicOk(p, maxIterations, s, greedy)
  {
    EverythingInfeasible(p, Elements(greedy), path);
    SortedInRange(p, greedy);
  }

  lemma ExhaustedAnswer(p: Problem, maxIterations: nat, greedy: seq<nat>, s: CutSolution)
    requires p.Valid() && Distinct(greedy) && Indexed(p, greedy) && maxIterations <= p.NodeCount()
    requires |greedy| == |p.Mandatory()| + maxIterations
    requires s == CutSolution(LimitReachedNoSolution, [], None, None, maxIterations, true)
    ensures HeuristicOk(p, maxIterations, s, greedy)
  {
    SortedInRange(p, greedy);
  }

  lemma RestoredAnswer(p: Problem, maxIterations: nat, greedy: seq<nat>, restored: seq<nat>, s: CutSolution)
    requires p.Valid() && Distinct(greedy) && Indexed(p, greedy) && !HasResidualPath(p, Elements(greedy))
    requires Indexed(p, Sorted(greedy)) && restored == ReverseDeletion(p, Sorted(greedy), 0)
    requires s.explored == |greedy| - |p.Mandatory()| + 1 <= maxIterations && !s.budgetExhausted && s.infeasibilityPath.None?
    requires if Feasible(p, Elements(restored))
      then s.status.FeasibleNotProvenOptimal? && s.members == restored && s.objective == Some(ObjectiveOf(p, Elements(restored)))
      else s.status.LimitReachedNoSolution? && s.members == [] && s.objective == None
    ensures HeuristicOk(p, maxIterations, s, greedy)
  {
    hide ReverseDeletion, Feasible, InclusionMinimal, HasResidualPath;
    RestoredFacts(p, greedy, restored);
  }

  lemma SortedInRange(p: Problem, members: seq<nat>)
    requires Distinct(members) && Indexed(p, members)
    ensures Indexed(p, Sorted(members))
  {
    DistinctSorted(members);
  }

  lemma DistinctSorted(s: seq<nat>)
    requires Distinct(s)
    ensures Ascending(Sorted(s)) && forall i :: 0 <= i < |s| ==> Sorted(s)[i] in Elements(s)
  {
    hide Sorted;
    SortedDistinct(s);
    var r := Sorted(s);
    forall i | 0 <= i < |s| ensures r[i] in Elements(s) { assert r[i] in Elements(r); }
  }

  lemma RestoredFacts(p: Problem, greedy: seq<nat>, restored: seq<nat>)
    requires p.Valid() && Distinct(greedy) && forall i :: 0 <= i < |greedy| ==> greedy[i] < p.NodeCount()
    requires forall i :: 0 <= i < |greedy| ==> Sorted(greedy)[i] < p.NodeCount()
    requires restored == ReverseDeletion(p, Sorted(greedy), 0)
    ensures Ascending(restored) && Distinct(restored) && Elements(restored) <= Elements(greedy)
    ensures Feasible(p, Elements(greedy)) ==> Feasible(p, Elements(restored)) && InclusionMinimal(p, Elements(restored))
  {
    DistinctSorted(greedy);
    DeletionKeeps(p, Sorted(greedy), 0);
    if Feasible(p, Elements(greedy)) {
      DeletionBears(p, Sorted(greedy), 0);
      forall v | v in Elements(restored) ensures Bears(p, Elements(restored), v) { assert v in restored; }
      BearsMeansMinimal(p, Elements(restored));
    }
  }

  method MandatoryMembers(p: Problem) returns (included: seq<bool>, members: seq<nat>)
    requires p.Valid()
    ensures |included| == p.NodeCount() && Marked(included) == Elements(members) == p.Mandatory()
    ensures Distinct(members) && |members| <= p.NodeCount()
    ensures forall i :: 0 <= i < |members| ==> members[i] < p.NodeCount() && p.containable[members[i]]
  {
    included, members := seq(p.NodeCount(), _ => false), [];
    PropagationShape(p);
    assert Marked(included) == {} == Elements(members);
    for i := 0 to |p.sources|
      invariant |included| == p.NodeCount() && Marked(included) == Elements(members) == MandatoryAmong(p, p.sources[..i])
      invariant Distinct(members)
      invariant forall j :: 0 <= j < |members| ==> members[j] < p.NodeCount() && p.containable[members[j]]
    {
      var source := p.sources[i];
      MandatoryNext(p, i, included);
      if p.IsMandatory(source) {
        assert source in Elements(members) <==> source in Marked(included);
        MarkedUpdate(included, source, true);
        ElementsAppend(members, source);
        included := included[source := true];
        members := members + [source];
      }
    }
    assert p.sources[..|p.sources|] == p.sources;
    AllMandatory(p);
    CountBounded(members, p.NodeCount());
  }

  lemma CountBounded(s: seq<nat>, n: nat)
    requires Distinct(s) && forall i :: 0 <= i < |s| ==> s[i] < n
    ensures |s| <= n
  {
    DistinctIffCount(s);
    SubsetCount(Elements(s), Range(n));
  }

  method CheapestContainable(p: Problem, path: seq<nat>) returns (pick: Option<nat>)
    requires p.Valid() && Distinct(path) && forall i :: 0 <= i < |path| ==> path[i] < p.NodeCount()
    ensures pick.None? <==> forall i :: 0 <= i < |path| ==> !p.containable[path[i]]
    ensures pick.Some? ==> GreedyPick(p, path, pick.value)
  {
    pick := None;
    for i := 0 to |path|
      invariant pick.None? <==> forall j :: 0 <= j < i ==> !p.containable[path[j]]
      invariant pick.Some? ==> GreedyPick(p, path[..i], pick.value)
    {
      var node := path[i];
      if !p.containable[node] {
        PickKept(p, path, i, pick);
        continue;
      }
      if pick.None? || Cheaper(p, node, pick.value) {
        PickReplaced(p, path, i, pick);
        pick := Some(node);
      } else {
        PickKept(p, path, i, pick);
      }
    }
    assert path[..|path|] == path;
  }

  lemma PickKept(p: Problem, path: seq<nat>, i: nat, pick: Option<nat>)
    requires p.Valid() && Distinct(path) && i < |path| && forall j :: 0 <= j < |path| ==> path[j] < p.NodeCount()
    requires pick.Some? ==> GreedyPick(p, path[..i], pick.value)
    requires p.containable[path[i]] ==> pick.Some? && !Cheaper(p, path[i], pick.value)
    ensures pick.Some? ==> GreedyPick(p, path[..i + 1], pick.value)
  {
    IdOrder();
    if pick.Some? {
      assert path[..i + 1] == path[..i] + [path[i]];
      assert path[i] != pick.value ==> p.ids[path[i]] != p.ids[pick.value] by { IdsDiffer(p, path[i], pick.value); }
    }
  }

  lemma PickReplaced(p: Problem, path: seq<nat>, i: nat, pick: Option<nat>)
    requires p.Valid() && Distinct(path) && i < |path| && forall j :: 0 <= j < |path| ==> path[j] < p.NodeCount()
    requires pick.Some? ==> GreedyPick(p, path[..i], pick.value)
    requires pick.None? ==> forall j :: 0 <= j < i ==> !p.containable[path[j]]
    requires p.containable[path[i]] && (pick.None? || Cheaper(p, path[i], pick.value))
    ensures GreedyPick(p, path[..i + 1], path[i])
  {
    IdOrder();
    assert path[..i + 1] == path[..i] + [path[i]];
    assert forall j :: 0 <= j < i ==> path[..i + 1][j] == path[..i][j];
  }

  lemma IdsDiffer(p: Problem, u: nat, v: nat)
    requires p.Valid() && u < p.NodeCount() && v < p.NodeCount() && u != v
    ensures p.ids[u] != p.ids[v]
  {
    IdOrder();
    assert IdLess(p.ids[u], p.ids[v]) || IdLess(p.ids[v], p.ids[u]);
  }

  lemma EverythingInfeasible(p: Problem, removed: set<nat>, path: seq<nat>)
    requires p.Valid() && LeastTargetWalk(Residual(p, removed), path)
    requires forall i :: 0 <= i < |path| ==> path[i] < p.NodeCount() && !p.containable[path[i]]
    ensures Infeasible(p)
  {
    hide AtMost;
    forall c ensures !Feasible(p, c) {
      if Feasible(p, c) { FeasibleHitsPath(p, c, removed, path); }
    }
  }

  lemma StepsKept(p: Problem, members: seq<nat>, start: nat, v: nat)
    requires p.Valid() && start <= |members|
    requires forall k :: start <= k < |members| ==> GreedyStep(p, members[..k], members[k])
    requires GreedyStep(p, members, v)
    ensures var all := members + [v];
      all[..start] == members[..start] && forall k :: start <= k < |all| ==> GreedyStep(p, all[..k], all[k])
  {
    hide GreedyStep;
    var all := members + [v];
    forall k | start <= k < |all| ensures GreedyStep(p, all[..k], all[k]) {
      assert all[..k] == if k < |members| then members[..k] else members;
    }
  }

  lemma GreedyGrown(p: Problem, members: seq<nat>, start: nat, included: seq<bool>, path: seq<nat>, v: nat)
    requires p.Valid() && GreedyList(p, members, start)
    requires |included| == p.NodeCount() && Marked(included) == Elements(members)
    requires LeastTargetWalk(Residual(p, Marked(included)), path)
    requires (forall i :: 0 <= i < |path| ==> path[i] < p.NodeCount() && path[i] !in Marked(included)) && GreedyPick(p, path, v)
    ensures GreedyList(p, members + [v], start) && |members| + 1 <= p.NodeCount()
    ensures Marked(included[v := true]) == Elements(members + [v])
  {
    hide LeastTargetWalk, Residual;
    MarkedUpdate(included, v, true);
    ElementsAppend(members, v);
    assert v !in Elements(members);
    assert GreedyStep(p, members, v);
    StepsKept(p, members, start, v);
    CountBounded(members + [v], p.NodeCount());
  }
}
