/** Building a containment instance from a topology, and why its candidate set loses no optimum. */
module Instances {
  import opened Collections
  import opened Resources
  import opened Sorting
  import opened Topologies
  import opened PropagationGraphs
  import opened BreadthFirst
  import opened Reachability
  import opened Containment
  import opened ResidualPaths
  import opened CutVerifier

  const MAX_FAILURE_SOURCES := 4096
  const MAX_PROTECTED_OBLIGATIONS := 4096

  datatype InstanceSpec = InstanceSpec(
    failureSources: seq<ResourceId>,
    protectedObligations: seq<ResourceId>,
    forcedIneligible: seq<ResourceId>,
    requireSources: bool,
    allowProtected: bool,
    minimizeProtected: bool,
    maxTotalWeight: nat,
    maxMembers: nat)

  datatype InstanceError =
    NoSource | NoObligation | TooManySources | TooManyObligations | BadMemberBound
    | UnknownForced | UnknownSource | DuplicateSource | UnknownObligation | DuplicateObligation

  datatype InstanceResult = Instance(problem: Problem) | NoInstance(error: InstanceError)

  /** Identities that are nodes, each at most once. */
  ghost predicate KnownOnce(nodes: seq<NodeSpec>, ids: seq<ResourceId>) {
    (forall i :: 0 <= i < |ids| ==> Find(nodes, ids[i]).Some?) && Distinct(ids)
  }

  ghost predicate SpecOk(nodes: seq<NodeSpec>, spec: InstanceSpec) {
    && 0 < |spec.failureSources| <= MAX_FAILURE_SOURCES
    && 0 < |spec.protectedObligations| <= MAX_PROTECTED_OBLIGATIONS
    && 0 < spec.maxMembers <= MAX_BOUNDARY_MEMBERS
    && (forall i :: 0 <= i < |spec.forcedIneligible| ==> Find(nodes, spec.forcedIneligible[i]).Some?)
    && KnownOnce(nodes, spec.failureSources) && KnownOnce(nodes, spec.protectedObligations)
  }

  /** The node indices of a list of identities. */
  function Indices(nodes: seq<NodeSpec>, ids: seq<ResourceId>): (r: seq<nat>)
    ensures |r| == |ids| && forall i :: 0 <= i < |ids| && Find(nodes, ids[i]).Some? ==> Some(r[i]) == Find(nodes, ids[i])
  {
    seq(|ids|, i requires 0 <= i < |ids| => match Find(nodes, ids[i]) case Some(v) => v case None => |nodes|)
  }

  /** What the builder puts into the instance, apart from the candidate set. */
  ghost predicate BuiltFrom(t: Topology, g: Graph, spec: InstanceSpec, p: Problem) {
    var n := |t.nodes|;
    var forced := Elements(Indices(t.nodes, spec.forcedIneligible));
    && p.graph == g
    && p.sources == Indices(t.nodes, spec.failureSources)
    && Elements(p.protectedNodes) == Elements(Indices(t.nodes, spec.protectedObligations)) && p.protectedNodes != []
    && Ascending(p.protectedNodes)
    && Elements(p.barred) == forced
    && |p.ids| == |p.containable| == |p.isProtected| == |p.isSource| == |p.weights| == n
    && (forall v :: 0 <= v < n ==> p.ids[v] == t.nodes[v].id && p.weights[v] == t.nodes[v].weight)
    && Marked(p.isSource) == Elements(p.sources) && Marked(p.isProtected) == Elements(p.protectedNodes)
    && (forall v :: 0 <= v < n ==>
          p.containable[v] == if p.isProtected[v] then spec.allowProtected else t.nodes[v].containable && v !in forced)
    && p.requireSources == spec.requireSources && p.allowProtected == spec.allowProtected
    && p.minimizeProtected == spec.minimizeProtected
    && p.maxTotalWeight == spec.maxTotalWeight && p.maxMembers == spec.maxMembers
  }

  // ---------------------------------------------------------------------
  // Candidates
  // ---------------------------------------------------------------------

  /** The forward search over the whole conservative graph. */
  function Forward(p: Problem): Search {
    Search(p.graph.conservative, p.sources, {}, {})
  }

  /** The backward search from the obligations. */
  function Backward(p: Problem): Search {
    Search(p.graph.conservativeIn, p.protectedNodes, {}, {})
  }

  ghost predicate IsCandidate(p: Problem, v: nat)
    requires p.Valid() && v < p.NodeCount()
  {
    (Reachable(Forward(p), v) && Reachable(Backward(p), v)) || p.IsMandatory(v)
  }

  /** Nodes on a source-to-obligation walk are reached by both searches. */
  lemma OnWalkIsCandidate(p: Problem, removed: set<nat>, q: seq<nat>, i: nat)
    requires p.Valid() && TargetWalk(Propagation(p, removed), q) && i < |q|
    ensures q[i] < p.NodeCount() && IsCandidate(p, q[i])
  {
    ForwardReached(p, removed, q, i);
    BackwardReached(p, removed, q, i);
  }

  lemma {:induction false} ForwardReached(p: Problem, removed: set<nat>, q: seq<nat>, i: nat)
    requires p.Valid() && TargetWalk(Propagation(p, removed), q) && i < |q|
    ensures Reachable(Forward(p), q[i])
  {
    if i == 0 {
      assert Walk(Forward(p), [q[0]]) && [q[0]][|[q[0]]| - 1] == q[0];
    } else {
      ForwardReached(p, removed, q, i - 1);
      assert Link(p.graph.conservative, q[i - 1], q[i]);
      OneStepFurther(Forward(p), q[i - 1], q[i]);
    }
  }

  lemma {:induction false} BackwardReached(p: Problem, removed: set<nat>, q: seq<nat>, i: nat)
    requires p.Valid() && TargetWalk(Propagation(p, removed), q) && i < |q|
    ensures Reachable(Backward(p), q[i])
    decreases |q| - i
  {
    if i == |q| - 1 {
      assert q[i] in Elements(p.protectedNodes);
      assert Walk(Backward(p), [q[i]]) && [q[i]][|[q[i]]| - 1] == q[i];
    } else {
      BackwardReached(p, removed, q, i + 1);
      assert Link(p.graph.conservative, q[i + 1 - 1], q[i + 1]);
      assert Link(p.graph.conservativeIn, q[i + 1], q[i]);
      OneStepFurther(Backward(p), q[i + 1], q[i]);
    }
  }

  /** Dropping a member that carries no source-to-obligation walk keeps a set feasible. */
  lemma IdleMember(p: Problem, c: set<nat>, v: nat)
    requires p.Valid() && Feasible(p, c) && v in c && v !in p.Mandatory()
    requires !Connects(p, c - {v})
    ensures Feasible(p, c - {v})
  {
    SubsetCount(c - {v}, c);
    SumMonotone(p.weights, c - {v}, c);
  }

  /** Every member of an optimum is a candidate: the builder's candidate set loses nothing. */
  lemma OptimumWithinCandidates(p: Problem, c: set<nat>)
    requires p.Valid() && UniqueOptimum(p, c)
    ensures forall v :: v in c ==> v < p.NodeCount() && IsCandidate(p, v)
  {
    forall v | v in c ensures v < p.NodeCount() && IsCandidate(p, v) {
      if v !in p.Mandatory() {
        LoadBearing(p, c, v);
        var q :| TargetWalk(Propagation(p, c - {v}), q);
        if forall i :: 0 <= i < |q| ==> q[i] != v {
          assert TargetWalk(Propagation(p, c), q);
        }
        var i :| 0 <= i < |q| && q[i] == v;
        OnWalkIsCandidate(p, c - {v}, q, i);
      }
    }
  }

  /** A non-mandatory member of an optimum is load-bearing. */
  lemma LoadBearing(p: Problem, c: set<nat>, v: nat)
    requires p.Valid() && UniqueOptimum(p, c) && v in c && v !in p.Mandatory()
    ensures Connects(p, c - {v})
  {
    if !Connects(p, c - {v}) {
      IdleMember(p, c, v);
      SupersetIsWorse(p, c - {v}, c, p.minimizeProtected);
      ObjectiveTransitive(ObjectiveOf(p, c), ObjectiveOf(p, c - {v}), ObjectiveOf(p, c), p.minimizeProtected);
      ObjectiveIrreflexive(ObjectiveOf(p, c), p.minimizeProtected);
    }
  }

  // ---------------------------------------------------------------------
  // The builder
  // ---------------------------------------------------------------------

  /** Validates the request and materialises the instance. */
  ghost predicate Repeats(ids: seq<ResourceId>) {
    exists i, j :: 0 <= i < j < |ids| && ids[i] == ids[j]
  }

  ghost predicate Unknowns(nodes: seq<NodeSpec>, ids: seq<ResourceId>) {
    exists id <- ids :: forall v :: 0 <= v < |nodes| ==> nodes[v].id != id
  }

  /** The condition a refusal names. */
  ghost predicate Violated(nodes: seq<NodeSpec>, spec: InstanceSpec, error: InstanceError) {
    match error
    case NoSource => spec.failureSources == []
    case NoObligation => spec.protectedObligations == []
    case TooManySources => |spec.failureSources| > MAX_FAILURE_SOURCES
    case TooManyObligations => |spec.protectedObligations| > MAX_PROTECTED_OBLIGATIONS
    case BadMemberBound => spec.maxMembers == 0 || spec.maxMembers > MAX_BOUNDARY_MEMBERS
    case UnknownForced => Unknowns(nodes, spec.forcedIneligible)
    case UnknownSource => Unknowns(nodes, spec.failureSources)
    case DuplicateSource => Repeats(spec.failureSources)
    case UnknownObligation => Unknowns(nodes, spec.protectedObligations)
    case DuplicateObligation => Repeats(spec.protectedObligations)
  }

  method BuildInstance(t: Topology, g: Graph, spec: InstanceSpec) returns (r: InstanceResult)
    requires t.Valid() && GraphOf(t, g) && g.Valid()
    ensures r.Instance? <==> SpecOk(t.nodes, spec)
    ensures r.Instance? ==>
      && BuiltFrom(t, g, spec, r.problem) && r.problem.Valid() && r.problem.ObligationsSettled()
      && Ascending(r.problem.candidates)
      && forall v: nat :: v in r.problem.candidates <==> v < r.problem.NodeCount() && IsCandidate(r.problem, v)
    ensures r.NoInstance? ==> Violated(t.nodes, spec, r.error)
  {
    if spec.failureSources == [] { return NoInstance(NoSource); }
    if spec.protectedObligations == [] { return NoInstance(NoObligation); }
    if |spec.failureSources| > MAX_FAILURE_SOURCES { return NoInstance(TooManySources); }
    if |spec.protectedObligations| > MAX_PROTECTED_OBLIGATIONS { return NoInstance(TooManyObligations); }
    if spec.maxMembers == 0 || spec.maxMembers > MAX_BOUNDARY_MEMBERS { return NoInstance(BadMemberBound); }
    var n := |t.nodes|;
    var forcedOk, eligible, forced := BarForced(t.nodes, spec.forcedIneligible);
    if !forcedOk { return NoInstance(UnknownForced); }
    var sourceError, isSource, sources := CollectOnce(t.nodes, spec.failureSources, UnknownSource, DuplicateSource);
    if sourceError.Some? { return NoInstance(sourceError.value); }
    var protectedError, isProtected, obligations :=
      CollectOnce(t.nodes, spec.protectedObligations, UnknownObligation, DuplicateObligation);
    if protectedError.Some? { return NoInstance(protectedError.value); }
    var containable := OverrideProtected(eligible, isProtected, spec.allowProtected);
    var p := Problem(g, sources, Sorted(obligations), MembersBelow(Elements(forced), n), [], NodeIds(t.nodes), containable,
      isProtected, isSource, NodeWeights(t.nodes), spec.requireSources, spec.allowProtected, spec.minimizeProtected,
      spec.maxTotalWeight, spec.maxMembers);
    Assembled(t, g, spec, p, eligible, forced, obligations);
    InstanceIsValid(t, g, spec, p);
    var candidates := ComputeCandidates(p);
    WithCandidates(t, g, spec, p, candidates);
    r := Instance(p.(candidates := candidates));
  }

  function NodeIds(nodes: seq<NodeSpec>): (r: seq<ResourceId>)
    ensures |r| == |nodes| && forall v :: 0 <= v < |nodes| ==> r[v] == nodes[v].id
  {
    seq(|nodes|, v requires 0 <= v < |nodes| => nodes[v].id)
  }

  function NodeWeights(nodes: seq<NodeSpec>): (r: seq<nat>)
    ensures |r| == |nodes| && forall v :: 0 <= v < |nodes| ==> r[v] == nodes[v].weight
  {
    seq(|nodes|, v requires 0 <= v < |nodes| => nodes[v].weight)
  }

  /** An obligation is containable exactly when the request authorizes it, whatever was barred before. */
  function OverrideProtected(eligible: seq<bool>, isProtected: seq<bool>, allowProtected: bool): (r: seq<bool>)
    requires |eligible| == |isProtected|
    ensures |r| == |eligible|
    ensures forall v :: 0 <= v < |r| ==> r[v] == if isProtected[v] then allowProtected else eligible[v]
  {
    seq(|eligible|, v requires 0 <= v < |eligible| => if isProtected[v] then allowProtected else eligible[v])
  }

  lemma Assembled(t: Topology, g: Graph, spec: InstanceSpec, p: Problem, eligible: seq<bool>, forced: seq<nat>, obligations: seq<nat>)
    requires |t.nodes| == |p.isSource| == |p.isProtected| == |eligible|
    requires forall v :: 0 <= v < |t.nodes| ==> (eligible[v] <==> t.nodes[v].containable && v !in Elements(forced))
    requires forced == Indices(t.nodes, spec.forcedIneligible)
    requires forall i :: 0 <= i < |forced| ==> forced[i] < |t.nodes|
    requires p.sources == Indices(t.nodes, spec.failureSources) && Marked(p.isSource) == Elements(p.sources)
    requires obligations == Indices(t.nodes, spec.protectedObligations) && Marked(p.isProtected) == Elements(obligations)
    requires spec.protectedObligations != [] && p.graph == g && Distinct(obligations)
    requires p.protectedNodes == Sorted(obligations) && p.barred == MembersBelow(Elements(forced), |t.nodes|)
    requires p.ids == NodeIds(t.nodes) && p.weights == NodeWeights(t.nodes)
    requires p.containable == OverrideProtected(eligible, p.isProtected, spec.allowProtected)
    requires p.requireSources == spec.requireSources && p.allowProtected == spec.allowProtected
    requires p.minimizeProtected == spec.minimizeProtected
    requires p.maxTotalWeight == spec.maxTotalWeight && p.maxMembers == spec.maxMembers
    ensures BuiltFrom(t, g, spec, p)
  {
    assert Elements(p.barred) == Elements(forced);
    SortedDistinct(obligations);
  }

  lemma InstanceIsValid(t: Topology, g: Graph, spec: InstanceSpec, p: Problem)
    requires t.Valid() && GraphOf(t, g) && g.Valid() && SpecOk(t.nodes, spec) && BuiltFrom(t, g, spec, p)
    requires Distinct(p.sources)
    ensures p.Valid() && p.ObligationsSettled()
  {
    hide Indices, GraphOf, Graph.Valid, SpecOk;
    assert StrictlySorted(p.ids) by {
      forall i, j | 0 <= i < j < |p.ids| ensures IdLess(p.ids[i], p.ids[j]) {
        assert NodeLess(t.nodes[i], t.nodes[j]);
      }
    }
    forall v | 0 <= v < |t.nodes| ensures 1 <= p.weights[v] <= MAX_NODE_WEIGHT { assert NodeOk(t.nodes[v]); }
    BoundsOk(t, g, spec, p);
  }

  lemma BoundsOk(t: Topology, g: Graph, spec: InstanceSpec, p: Problem)
    requires t.Valid() && GraphOf(t, g) && g.Valid() && SpecOk(t.nodes, spec) && BuiltFrom(t, g, spec, p)
    ensures |p.graph.conservative| == |t.nodes| <= MAX_TOPOLOGY_NODES && 1 <= p.maxMembers <= MAX_BOUNDARY_MEMBERS
    ensures p.graph.Valid()
  {
  }

  lemma WithCandidates(t: Topology, g: Graph, spec: InstanceSpec, p: Problem, candidates: seq<nat>)
    requires BuiltFrom(t, g, spec, p) && p.Valid() && p.ObligationsSettled()
    requires forall v: nat :: v in candidates <==> v < p.NodeCount() && IsCandidate(p, v)
    ensures var q := p.(candidates := candidates);
      && BuiltFrom(t, g, spec, q) && q.Valid() && q.ObligationsSettled()
      && forall v: nat :: v in q.candidates <==> v < q.NodeCount() && IsCandidate(q, v)
  {
    var q := p.(candidates := candidates);
    assert Forward(q) == Forward(p) && Backward(q) == Backward(p);
    assert q.Valid();
    forall v: nat ensures v in q.candidates <==> v < q.NodeCount() && IsCandidate(q, v) {
      assert v < p.NodeCount() ==> (IsCandidate(q, v) <==> IsCandidate(p, v));
    }
  }

  /** The propagation frontier, the reverse frontier, and the nodes on both or mandatory. */
  method ComputeCandidates(p: Problem) returns (candidates: seq<nat>)
    requires p.Valid()
    ensures Ascending(candidates)
    ensures forall v: nat :: v in candidates <==> v < p.NodeCount() && IsCandidate(p, v)
  {
    var none := seq(p.NodeCount(), _ => false);
    assert Marked(none) == {};
    PropagationShape(p);
    BackwardShape(p);
    var met, frontier, relevant;
    met, frontier := Flood(p.graph.conservative, p.sources, none, none);
    NoTargets(Forward(p));
    met, relevant := Flood(p.graph.conservativeIn, p.protectedNodes, none, none);
    NoTargets(Backward(p));
    candidates := [];
    for v := 0 to p.NodeCount()
      invariant Ascending(candidates)
      invariant forall u: nat :: u in candidates <==> u < v && IsCandidate(p, u)
    {
      if (frontier[v] && relevant[v]) || p.IsMandatory(v) {
        AscendingAppend(candidates, v);
        assert forall u :: u in candidates + [v] <==> u in candidates || u == v;
        candidates := candidates + [v];
      }
    }
  }

  lemma NoTargets(s: Search)
    requires s.targets == {}
    ensures forall q :: !TargetWalk(s, q)
  {
  }

  lemma BackwardShape(p: Problem)
    requires p.Valid()
    ensures |p.graph.conservativeIn| == p.NodeCount()
    ensures forall i :: 0 <= i < |p.protectedNodes| ==> p.protectedNodes[i] < p.NodeCount()
    ensures forall u: nat, x: nat :: Link(p.graph.conservativeIn, u, x) ==> x < p.NodeCount()
  {
    forall i | 0 <= i < |p.protectedNodes| ensures p.protectedNodes[i] < p.NodeCount() {
      assert p.protectedNodes[i] in Elements(p.protectedNodes);
    }
  }

  method BarForced(nodes: seq<NodeSpec>, ids: seq<ResourceId>)
    returns (ok: bool, eligible: seq<bool>, barred: seq<nat>)
    ensures ok <==> forall i :: 0 <= i < |ids| ==> Find(nodes, ids[i]).Some?
    ensures !ok ==> Unknowns(nodes, ids)
    ensures ok ==> |eligible| == |nodes| && barred == Indices(nodes, ids)
    ensures ok ==> forall i :: 0 <= i < |barred| ==> barred[i] < |nodes|
    ensures ok ==> forall v :: 0 <= v < |nodes| ==> (eligible[v] <==> nodes[v].containable && v !in Elements(barred))
  {
    eligible, barred := seq(|nodes|, v requires 0 <= v < |nodes| => nodes[v].containable), [];
    hide Find, Elements;
    NoElements<nat>([]);
    for i := 0 to |ids|
      invariant |eligible| == |nodes| && forall j :: 0 <= j < i ==> Find(nodes, ids[j]).Some?
      invariant barred == Indices(nodes, ids)[..i]
      invariant forall v :: 0 <= v < |nodes| ==> (eligible[v] <==> nodes[v].containable && v !in Elements(barred))
    {
      var index := Find(nodes, ids[i]);
      if index.None? {
        assert ids[i] in ids;
        return false, [], [];
      }
      ElementsAppend(barred, index.value);
      eligible := eligible[index.value := false];
      barred := barred + [index.value];
    }
    ok := true;
  }

  method CollectOnce(nodes: seq<NodeSpec>, ids: seq<ResourceId>, unknown: InstanceError, duplicate: InstanceError)
    returns (error: Option<InstanceError>, mask: seq<bool>, indices: seq<nat>)
    ensures error.None? <==> KnownOnce(nodes, ids)
    ensures error.None? ==> |mask| == |nodes| && indices == Indices(nodes, ids)
    ensures error.None? ==> Distinct(indices) && Marked(mask) == Elements(indices)
    ensures error.Some? ==> (error.value == unknown && Unknowns(nodes, ids)) || (error.value == duplicate && Repeats(ids))
  {
    mask, indices := seq(|nodes|, _ => false), [];
    for i := 0 to |ids|
      invariant |mask| == |nodes| && forall j :: 0 <= j < i ==> Find(nodes, ids[j]).Some?
      invariant Distinct(ids[..i]) && Distinct(indices)
      invariant indices == Indices(nodes, ids)[..i] && Marked(mask) == Elements(indices)
    {
      var index := Find(nodes, ids[i]);
      if index.None? {
        assert ids[i] in ids;
        return Some(unknown), mask, [];
      }
      if mask[index.value] {
        assert index.value in Elements(indices);
        var j :| 0 <= j < i && indices[j] == index.value;
        assert ids[j] == ids[i];
        return Some(duplicate), mask, [];
      }
      MarkedUpdate(mask, index.value, true);
      ElementsAppend(indices, index.value);
      NewIdentity(nodes, ids, i, indices);
      mask := mask[index.value := true];
      indices := indices + [index.value];
    }
    assert ids[..|ids|] == ids;
    error := None;
  }

  lemma NewIdentity(nodes: seq<NodeSpec>, ids: seq<ResourceId>, i: nat, indices: seq<nat>)
    requires i < |ids| && forall j :: 0 <= j <= i ==> Find(nodes, ids[j]).Some?
    requires indices == Indices(nodes, ids)[..i] && Distinct(ids[..i]) && Distinct(indices)
    requires Find(nodes, ids[i]).value !in Elements(indices)
    ensures Distinct(ids[..i + 1]) && Distinct(indices + [Find(nodes, ids[i]).value])
  {
    forall j | 0 <= j < i ensures ids[j] != ids[i] {
      assert indices[j] in Elements(indices);
    }
    assert ids[..i + 1] == ids[..i] + [ids[i]];
    assert forall j :: 0 <= j < i ==> ids[..i][j] == ids[j];
  }
}
