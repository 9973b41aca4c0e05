/** Necessity analysis: is a member in every feasible set? Decided by barring it and solving again. */
module Necessity {
  import opened Collections
  import opened Resources
  import opened Sorting
  import opened Topologies
  import opened PropagationGraphs
  import opened BreadthFirst
  import opened Containment
  import opened ResidualPaths
  import opened CutVerifier
  import opened SearchBounds
  import opened ExactSolver
  import opened Instances

  predicate InRange(p: Problem, s: seq<nat>) {
    forall i :: 0 <= i < |s| ==> s[i] < |p.ids|
  }

  predicate ListsInRange(p: Problem) {
    InRange(p, p.sources) && InRange(p, p.protectedNodes) && InRange(p, p.barred)
  }

  /** The request the analysis rebuilds: the base instance with one more node barred. */
  function BarredSpec(p: Problem, v: nat): InstanceSpec
    requires v < |p.ids| && ListsInRange(p)
  {
    InstanceSpec(Signature(p, p.sources), Signature(p, p.protectedNodes), Signature(p, p.barred) + [p.ids[v]],
      p.requireSources, p.allowProtected, p.minimizeProtected, p.maxTotalWeight, p.maxMembers)
  }

  /** An instance as the builder produces it. */
  ghost predicate IsInstance(t: Topology, g: Graph, spec: InstanceSpec, p: Problem) {
    && t.Valid() && GraphOf(t, g) && g.Valid() && SpecOk(t.nodes, spec) && BuiltFrom(t, g, spec, p)
    && p.Valid() && p.ObligationsSettled()
  }

  /** `q` is `p` with `v` made ineligible, unless `v` is an obligation: those follow the policy only. */
  ghost predicate BarredFrom(p: Problem, v: nat, q: Problem)
    requires p.Valid() && v < p.NodeCount()
  {
    && q.graph == p.graph && q.sources == p.sources && q.isSource == p.isSource && q.isProtected == p.isProtected
    && Elements(q.protectedNodes) == Elements(p.protectedNodes) && q.protectedNodes != []
    && q.ids == p.ids && q.weights == p.weights
    && q.containable == (if p.isProtected[v] then p.containable else p.containable[v := false])
    && q.requireSources == p.requireSources && q.allowProtected == p.allowProtected
    && q.minimizeProtected == p.minimizeProtected && q.maxTotalWeight == p.maxTotalWeight && q.maxMembers == p.maxMembers
  }

  lemma IndicesOfIds(t: Topology, p: Problem, s: seq<nat>)
    requires t.Valid() && |p.ids| == |t.nodes| && forall v :: 0 <= v < |t.nodes| ==> p.ids[v] == t.nodes[v].id
    requires InRange(p, s)
    ensures forall i :: 0 <= i < |s| ==> Find(t.nodes, Signature(p, s)[i]) == Some(s[i])
    ensures Indices(t.nodes, Signature(p, s)) == s
    ensures Distinct(s) ==> KnownOnce(t.nodes, Signature(p, s))
  {
    forall i | 0 <= i < |s| ensures Find(t.nodes, Signature(p, s)[i]) == Some(s[i]) {
      FindUnique(t.nodes, s[i]);
    }
    if Distinct(s) {
      forall i, j | 0 <= i < j < |s| ensures Signature(p, s)[i] != Signature(p, s)[j] {
        assert Find(t.nodes, Signature(p, s)[i]) == Some(s[i]) && Find(t.nodes, Signature(p, s)[j]) == Some(s[j]);
      }
    }
  }

  lemma InstanceRanges(t: Topology, g: Graph, spec: InstanceSpec, p: Problem)
    requires IsInstance(t, g, spec, p)
    ensures ListsInRange(p) && |p.ids| == p.NodeCount()
    ensures 0 < |p.sources| <= MAX_FAILURE_SOURCES && 0 < |p.protectedNodes| <= MAX_PROTECTED_OBLIGATIONS
  {
    forall k | 0 <= k < |p.barred| ensures p.barred[k] < |p.ids| {
      assert p.barred[k] in Elements(p.barred);
      var i :| 0 <= i < |spec.forcedIneligible| && Indices(t.nodes, spec.forcedIneligible)[i] == p.barred[k];
    }
    forall k | 0 <= k < |p.sources| ensures p.sources[k] < |p.ids| { assert p.sources[k] in Elements(p.sources); }
    forall k | 0 <= k < |p.protectedNodes| ensures p.protectedNodes[k] < |p.ids| {
      assert p.protectedNodes[k] in Elements(p.protectedNodes);
    }
    DistinctIffCount(p.protectedNodes);
    DistinctIffCount(Indices(t.nodes, spec.protectedObligations));
  }

  /** The rebuilt request lists the nodes of the instance and `v`. */
  lemma RebuiltLists(t: Topology, g: Graph, spec: InstanceSpec, p: Problem, v: nat)
    requires IsInstance(t, g, spec, p) && v < p.NodeCount()
    ensures v < |p.ids| && ListsInRange(p)
    ensures var r := BarredSpec(p, v);
      && Indices(t.nodes, r.failureSources) == p.sources && Indices(t.nodes, r.protectedObligations) == p.protectedNodes
      && Indices(t.nodes, r.forcedIneligible) == p.barred + [v]
      && KnownOnce(t.nodes, r.failureSources) && KnownOnce(t.nodes, r.protectedObligations)
      && forall i :: 0 <= i < |r.forcedIneligible| ==> Find(t.nodes, r.forcedIneligible[i]).Some?
  {
    InstanceRanges(t, g, spec, p);
    hide Indices, Graph.Valid, GraphOf, Topology.Valid, Find;
    IndicesOfIds(t, p, p.sources);
    IndicesOfIds(t, p, p.protectedNodes);
    IndicesOfIds(t, p, p.barred + [v]);
    assert BarredSpec(p, v).forcedIneligible == Signature(p, p.barred + [v]);
  }

  /** It is always accepted and yields exactly the barred instance. */
  lemma RebuiltOk(t: Topology, g: Graph, spec: InstanceSpec, p: Problem, v: nat)
    requires IsInstance(t, g, spec, p) && v < p.NodeCount()
    ensures v < |p.ids| && ListsInRange(p) && SpecOk(t.nodes, BarredSpec(p, v))
    ensures forall q :: BuiltFrom(t, g, BarredSpec(p, v), q) ==> BarredFrom(p, v, q)
  {
    InstanceRanges(t, g, spec, p);
    RebuiltLists(t, g, spec, p, v);
    hide Indices, Graph.Valid, GraphOf, Topology.Valid, KnownOnce, Find;
    ElementsAppend(p.barred, v);
    forall q | BuiltFrom(t, g, BarredSpec(p, v), q) ensures BarredFrom(p, v, q) {
      RebuiltFields(t, g, spec, p, v, q);
    }
  }

  lemma RebuiltFields(t: Topology, g: Graph, spec: InstanceSpec, p: Problem, v: nat, q: Problem)
    requires p.Valid() && v < p.NodeCount() && BuiltFrom(t, g, spec, p)
    requires v < |p.ids| && ListsInRange(p) && BuiltFrom(t, g, BarredSpec(p, v), q)
    requires Indices(t.nodes, BarredSpec(p, v).failureSources) == p.sources
    requires Indices(t.nodes, BarredSpec(p, v).protectedObligations) == p.protectedNodes
    requires Elements(Indices(t.nodes, BarredSpec(p, v).forcedIneligible)) == Elements(p.barred) + {v}
    ensures BarredFrom(p, v, q)
  {
    hide Indices, Problem.Valid, Signature;
    SameMask(q.isSource, p.isSource);
    SameMask(q.isProtected, p.isProtected);
    assert q.ids == p.ids && q.weights == p.weights;
    forall u | 0 <= u < |t.nodes|
      ensures q.containable[u] == if p.isProtected[v] then p.containable[u] else p.containable[v := false][u]
    {
    }
    assert q.containable == (if p.isProtected[v] then p.containable else p.containable[v := false]);
  }

  lemma SameMask(a: seq<bool>, b: seq<bool>)
    requires |a| == |b|
    ensures Marked(a) == Marked(b) ==> a == b
  {
    if Marked(a) == Marked(b) { MaskDetermined(a, b); }
  }

  /** Barring a plain node removes exactly the feasible sets that hold it. */
  lemma BarredFeasibleSets(p: Problem, v: nat, q: Problem, c: set<nat>)
    requires p.Valid() && q.Valid() && v < p.NodeCount() && BarredFrom(p, v, q)
    requires !p.isProtected[v] && !p.IsMandatory(v)
    ensures Feasible(q, c) <==> Feasible(p, c) && v !in c
  {
    assert Propagation(q, c) == Propagation(p, c);
    assert q.Mandatory() == p.Mandatory() by {
      forall u: nat ensures u in q.Mandatory() <==> u in p.Mandatory() {}
    }
    assert AllEligible(q, c) <==> AllEligible(p, c) && v !in c by {
      forall u | u in c ensures (u < q.NodeCount() && q.IsEligible(u)) <==> (u < p.NodeCount() && p.IsEligible(u) && u != v) {}
    }
  }

  /** An obligation cannot be barred while the policy authorizes protected inclusion: the rebuilt
      instance has the very same feasible sets, so the analysis says nothing about it. */
  lemma ProtectedSubjectUnaffected(p: Problem, v: nat, q: Problem, c: set<nat>)
    requires p.Valid() && q.Valid() && v < p.NodeCount() && BarredFrom(p, v, q) && p.isProtected[v]
    ensures Feasible(q, c) <==> Feasible(p, c)
  {
    assert Propagation(q, c) == Propagation(p, c);
    assert q.Mandatory() == p.Mandatory() by {
      forall u: nat ensures u in q.Mandatory() <==> u in p.Mandatory() {}
    }
    assert AllEligible(q, c) <==> AllEligible(p, c) by {
      forall u | u in c ensures (u < q.NodeCount() && q.IsEligible(u)) <==> (u < p.NodeCount() && p.IsEligible(u)) {}
    }
  }

  /** In every feasible set. */
  ghost predicate Necessary(p: Problem, v: nat)
    requires p.Valid()
  {
    forall c :: Feasible(p, c) ==> v in c
  }

  /** Some feasible set leaves it out. */
  ghost predicate Dispensable(p: Problem, v: nat)
    requires p.Valid()
  {
    exists c :: Feasible(p, c) && v !in c
  }

  /** Solving with `v` barred ended in one of these statuses, and within the budget unless `exhausted`. */
  ghost predicate Resolved(p: Problem, v: nat, budget: nat, statuses: set<SolveStatus>, exhausted: bool)
    requires p.Valid() && v < p.NodeCount()
  {
    exists q: Problem, s: CutSolution :: q.Valid() && BarredFrom(p, v, q) && SolutionOk(q, budget, s)
      && s.status in statuses && (s.budgetExhausted ==> exhausted)
  }

  /** Solves the instance again with `v` barred. */
  method StatusWithout(t: Topology, g: Graph, ghost spec: InstanceSpec, p: Problem, v: nat, budget: nat)
    returns (status: SolveStatus, exhausted: bool)
    requires IsInstance(t, g, spec, p) && v < p.NodeCount() && !p.IsMandatory(v)
    ensures !p.isProtected[v] && p.OverlapSettled() && status.ProvenInfeasible? ==> Necessary(p, v)
    ensures !p.isProtected[v] && (status.ProvenOptimal? || status.FeasibleNotProvenOptimal?) ==> Dispensable(p, v)
    ensures p.isProtected[v] && p.OverlapSettled() && status.ProvenInfeasible? ==> Infeasible(p)
    ensures status.LimitReachedNoSolution? ==> exhausted
    ensures !status.InvalidProblem? && Resolved(p, v, budget, {status}, exhausted)
    ensures budget >= Sufficient(p) ==> !exhausted
  {
    RebuiltOk(t, g, spec, p, v);
    var rebuilt := BuildInstance(t, g, BarredSpec(p, v));
    var q := rebuilt.problem;
    InstanceRanges(t, g, spec, p);
    var solution := SolveExact(q, budget);
    status, exhausted := solution.status, solution.budgetExhausted;
    VerdictOnBarred(p, v, q, budget, solution);
    BarredSufficient(p, v, q);
  }

  /** What suffices for the instance suffices without the node. */
  lemma BarredSufficient(p: Problem, v: nat, q: Problem)
    requires p.Valid() && q.Valid() && v < p.NodeCount() && BarredFrom(p, v, q)
    ensures Sufficient(q) <= Sufficient(p)
  {
    SubsetCount(Marked(q.containable), Marked(p.containable));
    Pow2Monotone(|Marked(q.containable)|, |Marked(p.containable)|);
  }

  lemma VerdictOnBarred(p: Problem, v: nat, q: Problem, budget: nat, s: CutSolution)
    requires p.Valid() && q.Valid() && v < p.NodeCount() && BarredFrom(p, v, q) && !p.IsMandatory(v)
    requires SolutionOk(q, budget, s)
    ensures !p.isProtected[v] && p.OverlapSettled() && s.status.ProvenInfeasible? ==> Necessary(p, v)
    ensures !p.isProtected[v] && s.HasSolution() ==> Dispensable(p, v)
    ensures p.isProtected[v] && p.OverlapSettled() && s.status.ProvenInfeasible? ==> Infeasible(p)
    ensures s.status.LimitReachedNoSolution? ==> s.budgetExhausted
  {
    assert p.OverlapSettled() ==> q.OverlapSettled() by {
      forall u: nat | p.OverlapSettled() && q.IsOverlap(u) && q.IsEligible(u) ensures q.requireSources {
        assert p.IsOverlap(u) && p.IsEligible(u);
      }
    }
    if p.isProtected[v] {
      forall c { ProtectedSubjectUnaffected(p, v, q, c); }
    } else {
      forall c { BarredFeasibleSets(p, v, q, c); }
    }
  }

  datatype NecessityResult = NecessityResult(
    provenNecessary: seq<nat>, indeterminate: seq<nat>, notNecessary: seq<nat>, exhausted: bool)
  {
    /** Every subject gets one verdict. */
    function Verdicts(): seq<nat> { provenNecessary + indeterminate + notNecessary }
  }

  /** What the three verdicts mean. */
  ghost predicate VerdictsSound(p: Problem, r: NecessityResult)
    requires p.Valid()
  {
    && (forall v :: v in r.Verdicts() ==> v < p.NodeCount())
    && (p.OverlapSettled() ==> forall v :: v in r.provenNecessary ==> Necessary(p, v))
    && (forall v :: v in r.notNecessary && v < p.NodeCount() && !p.isProtected[v] ==> Infeasible(p) || Dispensable(p, v))
    && (r.indeterminate != [] ==> r.exhausted)
  }

  /** Which list a subject is filed under: by containability and policy, otherwise by how the re-solve ended. */
  ghost predicate Filed(p: Problem, budget: nat, r: NecessityResult)
    requires p.Valid()
  {
    && (forall v :: v in r.provenNecessary ==>
          && v < p.NodeCount() && p.containable[v]
          && (p.IsMandatory(v) || Resolved(p, v, budget, {ProvenInfeasible}, r.exhausted)))
    && (forall v :: v in r.notNecessary ==>
          && v < p.NodeCount() && !p.IsMandatory(v)
          && (p.containable[v] ==> Resolved(p, v, budget, {ProvenOptimal, FeasibleNotProvenOptimal}, r.exhausted)))
    && (forall v :: v in r.indeterminate ==>
          && v < p.NodeCount() && p.containable[v] && !p.IsMandatory(v)
          && Resolved(p, v, budget, {LimitReachedNoSolution}, r.exhausted))
  }

  lemma StillFiled(p: Problem, budget: nat, r: NecessityResult, exhausted: bool)
    requires p.Valid() && VerdictsSound(p, r) && Filed(p, budget, r)
    ensures var after := r.(exhausted := r.exhausted || exhausted);
      VerdictsSound(p, after) && Filed(p, budget, after) && after.Verdicts() == r.Verdicts()
  {
  }

  /** Tests each subject by barring it. */
  method Analyze(t: Topology, g: Graph, ghost spec: InstanceSpec, p: Problem, subjects: seq<nat>, budget: nat)
    returns (r: NecessityResult)
    requires IsInstance(t, g, spec, p) && forall i :: 0 <= i < |subjects| ==> subjects[i] < p.NodeCount()
    ensures VerdictsSound(p, r) && Filed(p, budget, r) && multiset(r.Verdicts()) == multiset(subjects)
    ensures budget >= Sufficient(p) ==> !r.exhausted
  {
    hide VerdictsSound, Filed, Resolved, IsInstance;
    InstanceValid(t, g, spec, p);
    r := NecessityResult([], [], [], false);
    NoVerdicts(p, budget);
    for i := 0 to |subjects|
      invariant VerdictsSound(p, r) && Filed(p, budget, r) && multiset(r.Verdicts()) == multiset(subjects[..i])
      invariant budget >= Sufficient(p) ==> !r.exhausted
    {
      var v := subjects[i];
      assert subjects[..i + 1] == subjects[..i] + [v];
      if !p.containable[v] {
        NotContainable(p, v);
        AddNotNecessary(p, budget, r, v);
        r := r.(notNecessary := r.notNecessary + [v]);
      } else if p.requireSources && p.isSource[v] {
        MandatoryIsNecessary(p, v);
        AddNecessary(p, budget, r, v);
        r := r.(provenNecessary := r.provenNecessary + [v]);
      } else {
        var status, exhausted := StatusWithout(t, g, spec, p, v, budget);
        StillFiled(p, budget, r, exhausted);
        r := r.(exhausted := r.exhausted || exhausted);
        AnyStatus(p, v, budget, status, exhausted, r.exhausted);
        match status {
          case ProvenInfeasible =>
            AddNecessary(p, budget, r, v);
            r := r.(provenNecessary := r.provenNecessary + [v]);
          case ProvenOptimal =>
            AddNotNecessary(p, budget, r, v);
            r := r.(notNecessary := r.notNecessary + [v]);
          case FeasibleNotProvenOptimal =>
            AddNotNecessary(p, budget, r, v);
            r := r.(notNecessary := r.notNecessary + [v]);
          case LimitReachedNoSolution =>
            AddIndeterminate(p, budget, r, v);
            r := r.(indeterminate := r.indeterminate + [v]);
          case InvalidProblem =>
            assert false;
        }
      }
    }
    assert subjects[..|subjects|] == subjects;
  }

  lemma InstanceValid(t: Topology, g: Graph, spec: InstanceSpec, p: Problem)
    requires IsInstance(t, g, spec, p)
    ensures p.Valid() && |p.isSource| == |p.isProtected| == p.NodeCount()
  {
  }

  lemma NoVerdicts(p: Problem, budget: nat)
    requires p.Valid()
    ensures VerdictsSound(p, NecessityResult([], [], [], false)) && Filed(p, budget, NecessityResult([], [], [], false))
  {
  }

  lemma AnyStatus(p: Problem, v: nat, budget: nat, status: SolveStatus, exhausted: bool, all: bool)
    requires p.Valid() && v < p.NodeCount() && Resolved(p, v, budget, {status}, exhausted) && (exhausted ==> all)
    ensures status.ProvenInfeasible? || status.LimitReachedNoSolution? ==> Resolved(p, v, budget, {status}, all)
    ensures status.ProvenOptimal? || status.FeasibleNotProvenOptimal? ==>
      Resolved(p, v, budget, {ProvenOptimal, FeasibleNotProvenOptimal}, all)
  {
  }

  lemma AddNecessary(p: Problem, budget: nat, r: NecessityResult, v: nat)
    requires p.Valid() && VerdictsSound(p, r) && Filed(p, budget, r) && v < p.NodeCount() && p.containable[v]
    requires p.IsMandatory(v) || Resolved(p, v, budget, {ProvenInfeasible}, r.exhausted)
    requires p.OverlapSettled() ==> Necessary(p, v) || Infeasible(p)
    ensures var after := r.(provenNecessary := r.provenNecessary + [v]);
      VerdictsSound(p, after) && Filed(p, budget, after) && multiset(after.Verdicts()) == multiset(r.Verdicts()) + multiset{v}
  {
    hide Resolved, Problem.OverlapSettled;
    AppendedVerdict(r, r.(provenNecessary := r.provenNecessary + [v]), v);
    InfeasibleIsNecessary(p, v);
  }

  lemma AddNotNecessary(p: Problem, budget: nat, r: NecessityResult, v: nat)
    requires p.Valid() && VerdictsSound(p, r) && Filed(p, budget, r) && v < p.NodeCount() && !p.IsMandatory(v)
    requires p.containable[v] ==> Resolved(p, v, budget, {ProvenOptimal, FeasibleNotProvenOptimal}, r.exhausted)
    requires !p.isProtected[v] ==> Infeasible(p) || Dispensable(p, v)
    ensures var after := r.(notNecessary := r.notNecessary + [v]);
      VerdictsSound(p, after) && Filed(p, budget, after) && multiset(after.Verdicts()) == multiset(r.Verdicts()) + multiset{v}
  {
    hide Resolved, Problem.OverlapSettled;
    AppendedVerdict(r, r.(notNecessary := r.notNecessary + [v]), v);
  }

  lemma AddIndeterminate(p: Problem, budget: nat, r: NecessityResult, v: nat)
    requires p.Valid() && VerdictsSound(p, r) && Filed(p, budget, r) && v < p.NodeCount() && !p.IsMandatory(v)
    requires p.containable[v] && r.exhausted && Resolved(p, v, budget, {LimitReachedNoSolution}, r.exhausted)
    ensures var after := r.(indeterminate := r.indeterminate + [v]);
      VerdictsSound(p, after) && Filed(p, budget, after) && multiset(after.Verdicts()) == multiset(r.Verdicts()) + multiset{v}
  {
    hide Resolved, Problem.OverlapSettled;
    AppendedVerdict(r, r.(indeterminate := r.indeterminate + [v]), v);
  }

  lemma AppendedVerdict(before: NecessityResult, after: NecessityResult, v: nat)
    requires || (after.provenNecessary == before.provenNecessary + [v]
                 && after.indeterminate == before.indeterminate && after.notNecessary == before.notNecessary)
             || (after.indeterminate == before.indeterminate + [v]
                 && after.provenNecessary == before.provenNecessary && after.notNecessary == before.notNecessary)
             || (after.notNecessary == before.notNecessary + [v]
                 && after.provenNecessary == before.provenNecessary && after.indeterminate == before.indeterminate)
    ensures multiset(after.Verdicts()) == multiset(before.Verdicts()) + multiset{v}
    ensures forall x :: x in after.Verdicts() <==> x in before.Verdicts() || x == v
  {
    assert forall x :: x in after.Verdicts() <==> x in multiset(after.Verdicts());
    assert forall x :: x in before.Verdicts() <==> x in multiset(before.Verdicts());
  }

  lemma NotContainable(p: Problem, v: nat)
    requires p.Valid() && v < p.NodeCount() && !p.containable[v]
    ensures Infeasible(p) || Dispensable(p, v)
  {
    if c :| Feasible(p, c) { assert v !in c; }
  }

  lemma MandatoryIsNecessary(p: Problem, v: nat)
    requires p.Valid() && v < p.NodeCount() && p.IsMandatory(v)
    ensures Necessary(p, v)
  {
    assert v in p.Mandatory();
  }

  lemma InfeasibleIsNecessary(p: Problem, v: nat)
    requires p.Valid()
    ensures Infeasible(p) ==> Necessary(p, v)
  {
  }

  /** The containable candidates, each tested once. */
  method AnalyzeExhaustive(t: Topology, g: Graph, ghost spec: InstanceSpec, p: Problem, budget: nat)
    returns (r: NecessityResult)
    requires IsInstance(t, g, spec, p)
    requires forall v: nat :: v in p.candidates <==> v < p.NodeCount() && IsCandidate(p, v)
    ensures p.Valid() && VerdictsSound(p, r) && Filed(p, budget, r) && (budget >= Sufficient(p) ==> !r.exhausted)
    ensures forall v: nat :: v in r.Verdicts() <==> v < p.NodeCount() && IsCandidate(p, v) && p.containable[v]
  {
    assert p.Valid();
    hide IsInstance, VerdictsSound, Filed, IsCandidate;
    var subjects := ContainableCandidates(p);
    SortedMembers(subjects);
    r := Analyze(t, g, spec, p, Sorted(subjects), budget);
    SameMembers(r.Verdicts(), Sorted(subjects));
  }

  lemma SortedMembers(s: seq<nat>)
    ensures forall v :: v in Sorted(s) <==> v in s
    ensures forall i :: 0 <= i < |s| ==> Sorted(s)[i] in s
  {
    assert forall v :: v in Sorted(s) <==> v in Elements(Sorted(s));
    assert forall i :: 0 <= i < |s| ==> Sorted(s)[i] in Sorted(s);
  }

  method ContainableCandidates(p: Problem) returns (subjects: seq<nat>)
    requires p.Valid() && forall v :: v in p.candidates ==> v < p.NodeCount()
    ensures forall v: nat :: v in subjects <==> v in p.candidates && v < p.NodeCount() && p.containable[v]
  {
    subjects := [];
    for i := 0 to |p.candidates|
      invariant forall v: nat :: v in subjects <==> v in p.candidates[..i] && v < p.NodeCount() && p.containable[v]
    {
      assert p.candidates[i] in p.candidates;
      assert p.candidates[..i + 1] == p.candidates[..i] + [p.candidates[i]];
      if p.containable[p.candidates[i]] {
        subjects := subjects + [p.candidates[i]];
      }
    }
    assert p.candidates[..|p.candidates|] == p.candidates;
  }

  /** A necessary node of a feasible instance is a containable candidate. */
  lemma NecessaryIsCandidate(p: Problem, v: nat)
    requires p.Valid() && !Infeasible(p) && Necessary(p, v)
    ensures v < p.NodeCount() && IsCandidate(p, v) && p.containable[v]
  {
    var c :| Feasible(p, c);
    assert v in c && p.IsEligible(v);
    if v !in p.Mandatory() {
      if !Connects(p, c - {v}) { IdleMember(p, c, v); }
      var q :| TargetWalk(Propagation(p, c - {v}), q);
      var i := MeetsMember(p, c, v, q);
      OnWalkIsCandidate(p, c - {v}, q, i);
    }
  }

  /** A walk that only opens up when `v` leaves a cut passes through `v`. */
  lemma MeetsMember(p: Problem, c: set<nat>, v: nat, q: seq<nat>) returns (i: nat)
    requires p.Valid() && !Connects(p, c) && TargetWalk(Propagation(p, c - {v}), q)
    ensures i < |q| && q[i] == v
  {
    assert !TargetWalk(Propagation(p, c), q);
    i :| 0 <= i < |q| && q[i] == v;
  }

  /** When the budget sufficed, the exhaustive analysis proves exactly the necessary plain nodes. */
  lemma ExhaustiveIsExact(p: Problem, r: NecessityResult, v: nat)
    requires p.Valid() && p.OverlapSettled() && !Infeasible(p) && VerdictsSound(p, r) && !r.exhausted
    requires forall u: nat :: u in r.Verdicts() <==> u < p.NodeCount() && IsCandidate(p, u) && p.containable[u]
    requires v < p.NodeCount() && !p.isProtected[v]
    ensures v in r.provenNecessary <==> Necessary(p, v)
  {
    if Necessary(p, v) {
      NecessaryIsCandidate(p, v);
      assert v in r.Verdicts();
      assert v !in r.notNecessary;
    }
  }

  /** What a completed analysis says about a containable obligation depends on the instance, not on the
      obligation: it is filed as not necessary exactly when the instance is feasible. */
  lemma ObligationFiled(p: Problem, budget: nat, r: NecessityResult, v: nat)
    requires p.Valid() && p.OverlapSettled() && Filed(p, budget, r) && !r.exhausted && v in r.Verdicts()
    requires v < p.NodeCount() && p.isProtected[v] && p.containable[v] && !p.IsMandatory(v)
    ensures v !in r.indeterminate
    ensures v in r.notNecessary <==> !Infeasible(p)
    ensures v in r.provenNecessary <==> Infeasible(p)
  {
    hide Feasible, SolutionOk, Problem.Valid, BarredFrom;
    if v in r.notNecessary { ObligationResolved(p, budget, v, {ProvenOptimal, FeasibleNotProvenOptimal}); }
    if v in r.provenNecessary { ObligationResolved(p, budget, v, {ProvenInfeasible}); }
    if v in r.indeterminate { ObligationResolved(p, budget, v, {LimitReachedNoSolution}); }
  }

  lemma ObligationResolved(p: Problem, budget: nat, v: nat, statuses: set<SolveStatus>)
    requires p.Valid() && p.OverlapSettled() && v < p.NodeCount() && p.isProtected[v]
    requires Resolved(p, v, budget, statuses, false)
    ensures if Infeasible(p) then ProvenInfeasible in statuses else ProvenOptimal in statuses
  {
    var q: Problem, s: CutSolution :| q.Valid() && BarredFrom(p, v, q) && SolutionOk(q, budget, s) && s.status in statuses && !s.budgetExhausted;
    hide Feasible, Problem.Valid, Reaches, BestReached, RootOpen, WitnessOk;
    assert q.OverlapSettled() by {
      forall u: nat | q.IsOverlap(u) && q.IsEligible(u) ensures q.requireSources { assert p.IsOverlap(u) && p.IsEligible(u); }
    }
    forall c ensures Feasible(q, c) <==> Feasible(p, c) { ProtectedSubjectUnaffected(p, v, q, c); }
  }
}
