/** The independent verifier: full constraint check, infeasibility certificates, and how the
    three reachability searches of the engine relate. */
module CutVerifier {
  import opened Collections
  import opened Resources
  import opened BreadthFirst
  import opened Reachability
  import opened Containment
  import opened ResidualPaths

  // ---------------------------------------------------------------------
  // Reachability
  // ---------------------------------------------------------------------

  /** True when some source still reaches some obligation around the excluded nodes. */
  method SourceReachesProtected(p: Problem, excluded: seq<nat>) returns (reaches: bool)
    requires p.Valid() && forall i :: 0 <= i < |excluded| ==> excluded[i] < p.NodeCount()
    ensures reaches <==> Connects(p, Elements(excluded))
  {
    var blocked := seq(p.NodeCount(), _ => false);
    for i := 0 to |excluded|
      invariant |blocked| == p.NodeCount() && Marked(blocked) == Elements(excluded[..i])
    {
      MarkedUpdate(blocked, excluded[i], true);
      ElementsAppend(excluded[..i], excluded[i]);
      assert excluded[..i + 1] == excluded[..i] + [excluded[i]];
      blocked := blocked[excluded[i] := true];
    }
    assert excluded[..|excluded|] == excluded;
    PropagationShape(p);
    assert Propagation(p, Elements(excluded)) == Search(p.graph.conservative, p.sources, Marked(blocked), Marked(p.isProtected));
    var seen;
    reaches, seen := Flood(p.graph.conservative, p.sources, blocked, p.isProtected);
  }

  lemma PropagationShape(p: Problem)
    requires p.Valid()
    ensures |p.graph.conservative| == p.NodeCount()
    ensures forall i :: 0 <= i < |p.sources| ==> p.sources[i] < p.NodeCount() && p.isSource[p.sources[i]]
    ensures forall u: nat, x: nat :: Link(p.graph.conservative, u, x) ==> x < p.NodeCount()
  {
    forall i | 0 <= i < |p.sources| ensures p.sources[i] < p.NodeCount() && p.isSource[p.sources[i]] {
      assert p.sources[i] in Elements(p.sources);
    }
  }

  /** Witness path around the excluded nodes: the solvers' path search on a member list. */
  method FindWitnessPath(p: Problem, excluded: seq<nat>) returns (path: seq<nat>)
    requires p.Valid() && forall i :: 0 <= i < |excluded| ==> excluded[i] < p.NodeCount()
    ensures path == [] <==> !HasResidualPath(p, Elements(excluded))
    ensures path != [] ==> LeastTargetWalk(Residual(p, Elements(excluded)), path)
  {
    var blocked := seq(p.NodeCount(), _ => false);
    for i := 0 to |excluded|
      invariant |blocked| == p.NodeCount() && Marked(blocked) == Elements(excluded[..i])
    {
      MarkedUpdate(blocked, excluded[i], true);
      ElementsAppend(excluded[..i], excluded[i]);
      assert excluded[..i + 1] == excluded[..i] + [excluded[i]];
      blocked := blocked[excluded[i] := true];
    }
    assert excluded[..|excluded|] == excluded;
    path := ShortestResidualPath(p, blocked);
  }

  /** A residual path is in particular a source-to-obligation path. */
  lemma ResidualConnects(p: Problem, removed: set<nat>)
    requires HasResidualPath(p, removed)
    ensures Connects(p, removed)
  {
    var q :| TargetWalk(Residual(p, removed), q);
    assert TargetWalk(Propagation(p, removed), q);
  }

  /** The verifier and the path search differ only over an uncontained node that is failed and
      protected at once: the verifier counts its zero-hop path, the path search does not. */
  lemma ConnectsExactly(p: Problem, removed: set<nat>)
    requires p.Valid()
    ensures Connects(p, removed) <==>
      HasResidualPath(p, removed) || exists v: nat :: p.IsOverlap(v) && v !in removed
  {
    if HasResidualPath(p, removed) { ResidualConnects(p, removed); }
    if v: nat :| p.IsOverlap(v) && v !in removed {
      assert v in Marked(p.isSource) && v in Elements(p.sources);
      assert TargetWalk(Propagation(p, removed), [v]);
    }
    if Connects(p, removed) {
      var q :| TargetWalk(Propagation(p, removed), q);
      var last := q[|q| - 1];
      if last in p.sources {
        assert last in Elements(p.sources) && last in Marked(p.isSource);
        assert p.IsOverlap(last);
      } else {
        assert TargetWalk(Residual(p, removed), q);
      }
    }
  }

  lemma OnlyLeftNodeIsSource(p: Problem, removed: set<nat>, v: nat)
    requires p.Valid() && v < p.NodeCount() && p.isSource[v]
    requires forall x: nat :: x < p.NodeCount() && x != v ==> x in removed
    ensures !HasResidualPath(p, removed)
  {
    assert v in Marked(p.isSource) && v in Elements(p.sources);
    forall q ensures !TargetWalk(Residual(p, removed), q) {
      if Walk(Residual(p, removed), q) { assert q[|q| - 1] == v; }
    }
  }

  /** Both searches agree on every set that holds the mandatory members exactly when every node
      that is failed and protected at once is mandatory. */
  lemma SearchesAgreeExactly(p: Problem)
    requires p.Valid()
    ensures (forall removed: set<nat> :: p.Mandatory() <= removed ==>
               (Connects(p, removed) <==> HasResidualPath(p, removed)))
       <==> (forall v: nat :: p.IsOverlap(v) ==> p.IsMandatory(v))
  {
    if forall v: nat :: p.IsOverlap(v) ==> p.IsMandatory(v) {
      forall removed: set<nat> | p.Mandatory() <= removed
        ensures Connects(p, removed) <==> HasResidualPath(p, removed)
      {
        ConnectsExactly(p, removed);
        assert forall v: nat :: p.IsOverlap(v) ==> v in p.Mandatory();
      }
    } else {
      var v: nat :| p.IsOverlap(v) && !p.IsMandatory(v);
      var removed := Range(p.NodeCount()) - {v};
      ConnectsExactly(p, removed);
      assert p.Mandatory() <= removed;
      OnlyLeftNodeIsSource(p, removed, v);
    }
  }

  // ---------------------------------------------------------------------
  // The verifier
  // ---------------------------------------------------------------------

  datatype CutError =
    TooManyMembers | DuplicateMember | OutOfRange | NotEligible | ProtectedBarred
    | OverWeight | SourceMissing | StillConnected

  datatype CutResult = Accepted(objective: Objective) | Rejected(error: CutError)

  /** What a rejection says about the set of members. */
  ghost predicate Violates(p: Problem, c: set<nat>, error: CutError)
    requires p.Valid()
  {
    match error
    case TooManyMembers => |c| > p.maxMembers
    case DuplicateMember => false
    case OutOfRange => exists v :: v in c && v >= p.NodeCount()
    case NotEligible => exists v :: v in c && v < p.NodeCount() && !p.containable[v]
    case ProtectedBarred => !p.allowProtected && exists v :: v in c && v < p.NodeCount() && p.isProtected[v]
    case OverWeight => Weight(p, c) > p.maxTotalWeight
    case SourceMissing => !(p.Mandatory() <= c)
    case StillConnected => Connects(p, c)
  }

  /** Checks every hard constraint; the order of the checks decides which failure is reported. */
  method VerifyCut(p: Problem, members: seq<nat>) returns (r: CutResult)
    requires p.Valid()
    ensures r.Accepted? <==> Distinct(members) && Feasible(p, Elements(members))
    ensures r.Accepted? ==> r.objective == ObjectiveOf(p, Elements(members))
    ensures r == Rejected(TooManyMembers) <==> |members| > p.maxMembers
    ensures r == Rejected(DuplicateMember) <==> |members| <= p.maxMembers && !Distinct(members)
    ensures r.Rejected? && Distinct(members) ==> Violates(p, Elements(members), r.error)
  {
    SortedDistinct(members);
    hide Problem.Valid, ObjectiveOf, Distinct, Ascending;
    if |members| > p.maxMembers {
      return Rejected(TooManyMembers);
    }
    var sorted := Sorted(members);
    var repeated := HasRepeat(sorted);
    if repeated {
      return Rejected(DuplicateMember);
    }
    r := VerifySorted(p, sorted);
  }

  /** The checks after sorting. */
  method VerifySorted(p: Problem, sorted: seq<nat>) returns (r: CutResult)
    requires p.Valid() && Ascending(sorted) && |sorted| <= p.maxMembers
    ensures r.Accepted? <==> Feasible(p, Elements(sorted))
    ensures r.Accepted? ==> r.objective == ObjectiveOf(p, Elements(sorted))
    ensures r.Rejected? ==> Violates(p, Elements(sorted), r.error) && !r.error.TooManyMembers? && !r.error.DuplicateMember?
  {
    hide Problem.Valid, Connects, ObjectiveOf, AllEligible;
    ghost var c := Elements(sorted);
    var failure, totalWeight, protectedInclusions := CountMembers(p, sorted);
    if failure.Some? {
      return Rejected(failure.value);
    }
    InRange(p, sorted);
    SortedObjective(p, sorted);
    if totalWeight > p.maxTotalWeight {
      return Rejected(OverWeight);
    }
    if p.requireSources {
      var missing := FindMissingSource(p, sorted);
      if missing {
        return Rejected(SourceMissing);
      }
    }
    var reaches := SourceReachesProtected(p, sorted);
    if reaches {
      return Rejected(StillConnected);
    }
    r := Accepted(Objective(protectedInclusions, totalWeight, |sorted|, Signature(p, sorted)));
  }

  lemma InRange(p: Problem, sorted: seq<nat>)
    requires p.Valid() && AllEligible(p, Elements(sorted)) && Ascending(sorted)
    ensures |sorted| == |Elements(sorted)|
    ensures forall i :: 0 <= i < |sorted| ==> sorted[i] < p.NodeCount() == |p.ids|
  {
    DistinctIffCount(sorted);
    forall i | 0 <= i < |sorted| ensures sorted[i] < p.NodeCount() { assert sorted[i] in Elements(sorted); }
  }

  lemma SortedObjective(p: Problem, sorted: seq<nat>)
    requires p.Valid() && Ascending(sorted)
    requires forall i :: 0 <= i < |sorted| ==> sorted[i] < p.NodeCount() == |p.ids|
    ensures ObjectiveOf(p, Elements(sorted)) ==
      Objective(ProtectedInclusions(p, Elements(sorted)), Weight(p, Elements(sorted)), |sorted|, Signature(p, sorted))
  {
    SignatureOfSorted(p, Elements(sorted), sorted);
  }

  method HasRepeat(sorted: seq<nat>) returns (repeated: bool)
    requires NonDescending(sorted)
    ensures repeated <==> !Ascending(sorted)
  {
    var i := 1;
    while i < |sorted|
      invariant forall j :: 0 < j < i && j < |sorted| ==> sorted[j - 1] != sorted[j]
    {
      if sorted[i] == sorted[i - 1] {
        return true;
      }
      i := i + 1;
    }
    NeighboursDistinct(sorted);
    repeated := false;
  }

  /** Checks eligibility member by member while adding up weight and protected inclusions. */
  method CountMembers(p: Problem, sorted: seq<nat>)
    returns (failure: Option<CutError>, totalWeight: nat, protectedInclusions: nat)
    requires p.Valid() && Ascending(sorted)
    ensures failure.None? <==> AllEligible(p, Elements(sorted))
    ensures failure.None? ==> totalWeight == Weight(p, Elements(sorted))
    ensures failure.None? ==> protectedInclusions == ProtectedInclusions(p, Elements(sorted))
    ensures failure.Some? ==> failure.value in {OutOfRange, NotEligible, ProtectedBarred} && Violates(p, Elements(sorted), failure.value)
  {
    failure, totalWeight, protectedInclusions := None, 0, 0;
    NothingCounted(p, sorted);
    var i := 0;
    while i < |sorted|
      invariant i <= |sorted| && Counted(p, sorted, i, totalWeight, protectedInclusions)
    {
      var node := sorted[i];
      assert node in Elements(sorted);
      if node >= p.NodeCount() {
        failure := Some(OutOfRange);
        return;
      }
      if !p.containable[node] {
        failure := Some(NotEligible);
        return;
      }
      if p.isProtected[node] && !p.allowProtected {
        failure := Some(ProtectedBarred);
        return;
      }
      CountStep(p, sorted, i, totalWeight, protectedInclusions);
      if p.isProtected[node] {
        protectedInclusions := protectedInclusions + 1;
      }
      totalWeight := totalWeight + p.weights[node];
      i := i + 1;
    }
    AllCounted(p, sorted, totalWeight, protectedInclusions);
  }

  lemma NothingCounted(p: Problem, sorted: seq<nat>)
    requires p.Valid()
    ensures Counted(p, sorted, 0, 0, 0)
  {
    assert Elements(sorted[..0]) == {};
    SumEmpty(p.weights);
    SumEmpty(Flags(p.isProtected));
  }

  method FindMissingSource(p: Problem, sorted: seq<nat>) returns (missing: bool)
    requires p.Valid() && p.requireSources
    ensures missing <==> !(p.Mandatory() <= Elements(sorted))
  {
    PropagationShape(p);
    for i := 0 to |p.sources|
      invariant forall j :: 0 <= j < i && p.containable[p.sources[j]] ==> p.sources[j] in sorted
    {
      if p.containable[p.sources[i]] && p.sources[i] !in sorted {
        assert p.sources[i] in p.Mandatory();
        return true;
      }
    }
    forall v | v in p.Mandatory() ensures v in Elements(sorted) {
      assert v in Marked(p.isSource) && v in Elements(p.sources);
      var j :| 0 <= j < |p.sources| && p.sources[j] == v;
    }
    missing := false;
  }

  /** The accumulators after the first `i` sorted members. */
  ghost predicate Counted(p: Problem, sorted: seq<nat>, i: nat, totalWeight: nat, protectedInclusions: nat)
    requires p.Valid() && i <= |sorted|
  {
    && (forall j :: 0 <= j < i ==> sorted[j] < p.NodeCount() && p.IsEligible(sorted[j]))
    && totalWeight == Weight(p, Elements(sorted[..i]))
    && protectedInclusions == ProtectedInclusions(p, Elements(sorted[..i]))
  }

  lemma CountStep(p: Problem, sorted: seq<nat>, i: nat, totalWeight: nat, protectedInclusions: nat)
    requires p.Valid() && i < |sorted| && Ascending(sorted)
    requires Counted(p, sorted, i, totalWeight, protectedInclusions)
    requires sorted[i] < p.NodeCount() && p.IsEligible(sorted[i])
    ensures Counted(p, sorted, i + 1, totalWeight + p.weights[sorted[i]],
      protectedInclusions + if p.isProtected[sorted[i]] then 1 else 0)
  {
    var c := Elements(sorted[..i]);
    assert sorted[..i + 1] == sorted[..i] + [sorted[i]];
    ElementsAppend(sorted[..i], sorted[i]);
    assert sorted[i] !in c;
    SumAdd(p.weights, c, sorted[i]);
    SumAdd(Flags(p.isProtected), c, sorted[i]);
  }

  lemma AllCounted(p: Problem, sorted: seq<nat>, totalWeight: nat, protectedInclusions: nat)
    requires p.Valid() && Counted(p, sorted, |sorted|, totalWeight, protectedInclusions)
    ensures AllEligible(p, Elements(sorted))
    ensures totalWeight == Weight(p, Elements(sorted))
    ensures protectedInclusions == ProtectedInclusions(p, Elements(sorted))
  {
    assert sorted[..|sorted|] == sorted;
  }

  lemma NeighboursDistinct(sorted: seq<nat>)
    requires NonDescending(sorted)
    requires forall j :: 0 < j < |sorted| ==> sorted[j - 1] != sorted[j]
    ensures Ascending(sorted)
  {
    forall i, j | 0 <= i < j < |sorted| ensures sorted[i] < sorted[j] {
      assert sorted[i] <= sorted[j - 1] <= sorted[j];
    }
  }

  lemma SignatureOfSorted(p: Problem, c: set<nat>, sorted: seq<nat>)
    requires p.Valid() && Ascending(sorted) && Elements(sorted) == c
    requires forall v :: v in c ==> v < p.NodeCount()
    ensures MembersBelow(c, |p.ids|) == sorted && |sorted| == |c|
  {
    assert Elements(MembersBelow(c, |p.ids|)) == c;
    AscendingUnique(MembersBelow(c, |p.ids|), sorted);
    DistinctIffCount(sorted);
  }

  // ---------------------------------------------------------------------
  // Infeasibility certificates
  // ---------------------------------------------------------------------

  /** A source-to-obligation path without a single containable node. */
  ghost predicate Certificate(p: Problem, path: seq<nat>)
    requires p.Valid()
  {
    && TargetWalk(Propagation(p, {}), path) && |path| >= 2
    && (forall i :: 0 <= i < |path| ==> !p.containable[path[i]])
  }

  method VerifyInfeasibilityWitness(p: Problem, path: seq<nat>) returns (accepted: bool)
    requires p.Valid() && forall i :: 0 <= i < |path| ==> path[i] < p.NodeCount()
    ensures accepted <==> Certificate(p, path)
  {
    SourceMasks(p);
    if |path| < 2 || !p.isSource[path[0]] || !p.isProtected[path[|path| - 1]] {
      return false;
    }
    for i := 0 to |path|
      invariant forall j :: 0 <= j < i ==> !p.containable[path[j]]
    {
      if p.containable[path[i]] { return false; }
    }
    for i := 0 to |path| - 1
      invariant forall j :: 0 < j <= i ==> Link(p.graph.conservative, path[j - 1], path[j])
    {
      if path[i + 1] !in p.graph.conservative[path[i]] {
        assert !Link(p.graph.conservative, path[i + 1 - 1], path[i + 1]);
        return false;
      }
    }
    accepted := true;
  }

  lemma SourceMasks(p: Problem)
    requires p.Valid()
    ensures forall v :: 0 <= v < p.NodeCount() ==> (p.isSource[v] <==> v in p.sources)
  {
    forall v | 0 <= v < p.NodeCount() ensures p.isSource[v] <==> v in p.sources { SourceMask(p, v); }
  }

  /** Any certificate refutes feasibility outright. */
  lemma CertificateRefutes(p: Problem, path: seq<nat>)
    requires p.Valid() && Certificate(p, path)
    ensures Infeasible(p)
  {
    forall c ensures !Feasible(p, c) {
      if Feasible(p, c) {
        assert TargetWalk(Propagation(p, c), path);
      }
    }
  }

  /** Every feasible set meets every source-to-obligation path. */
  lemma FeasibleHitsPath(p: Problem, c: set<nat>, removed: set<nat>, path: seq<nat>)
    requires p.Valid() && Feasible(p, c) && TargetWalk(Residual(p, removed), path)
    ensures exists i :: 0 <= i < |path| && path[i] in c
  {
    if forall i :: 0 <= i < |path| ==> path[i] !in c {
      assert TargetWalk(Propagation(p, c), path);
    }
  }
}
