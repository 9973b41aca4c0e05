/** The containment problem MCC-1: instances, feasible sets and the objective order.
    Everything the solvers claim is stated against the definitions in this module. */
module Containment {
  import opened Collections
  import opened Resources
  import opened BreadthFirst
  import opened PropagationGraphs

  const MAX_BOUNDARY_MEMBERS := 8192
  const MAX_NODE_WEIGHT := 1000000
  const MAX_TOPOLOGY_NODES := 65536
  const INVALID_NODE: nat := 0xffff_ffff
  const MAX_U64: nat := 0xffff_ffff_ffff_ffff

  /** A validated instance over dense node indices. Nothing changes it after it is built. */
  datatype Problem = Problem(
    graph: Graph,
    sources: seq<nat>,
    protectedNodes: seq<nat>,
    barred: seq<nat>,
    candidates: seq<nat>,
    ids: seq<ResourceId>,
    containable: seq<bool>,
    isProtected: seq<bool>,
    isSource: seq<bool>,
    weights: seq<nat>,
    requireSources: bool,
    allowProtected: bool,
    minimizeProtected: bool,
    maxTotalWeight: nat,
    maxMembers: nat)
  {
    function NodeCount(): nat { |containable| }

    /** What `ContainmentProblem::build` establishes about the instance it returns. */
    ghost predicate Valid() {
      && graph.Valid()
      && |graph.conservative| == NodeCount() <= MAX_TOPOLOGY_NODES
      && |ids| == |isProtected| == |isSource| == |weights| == NodeCount()
      && StrictlySorted(ids)
      && (forall v :: 0 <= v < NodeCount() ==> 1 <= weights[v] <= MAX_NODE_WEIGHT)
      && Distinct(sources) && Elements(sources) == Marked(isSource)
      && Elements(protectedNodes) == Marked(isProtected)
      && 1 <= maxMembers <= MAX_BOUNDARY_MEMBERS
    }

    /** A node that policy requires inside every containment set. */
    predicate IsMandatory(v: nat)
      requires v < |isSource| && v < |containable|
    {
      requireSources && isSource[v] && containable[v]
    }

    ghost function Mandatory(): set<nat>
      requires Valid()
    {
      set v: nat | 0 <= v < NodeCount() && IsMandatory(v)
    }

    /** An obligation is containable exactly when the policy authorizes protected inclusion. */
    ghost predicate ObligationsSettled()
      requires Valid()
    {
      forall v :: 0 <= v < NodeCount() && isProtected[v] ==> containable[v] == allowProtected
    }

    /** A node some containment set could hold. */
    predicate IsEligible(v: nat)
      requires v < |isProtected| && v < |containable|
    {
      containable[v] && (isProtected[v] ==> allowProtected)
    }

    /** Nodes that are a failure source and a protected obligation at once. */
    ghost predicate IsOverlap(v: nat)
      requires Valid()
    {
      v < NodeCount() && isSource[v] && isProtected[v]
    }

    /** Every node that is both failed and protected is mandatory or in no containment set at all. */
    ghost predicate OverlapSettled()
      requires Valid()
    {
      forall v: nat :: IsOverlap(v) && IsEligible(v) ==> requireSources
    }
  }

  // ---------------------------------------------------------------------
  // Hard constraints
  // ---------------------------------------------------------------------

  /** Failure propagation once `removed` is contained: walks in the conservative graph from the
      sources, looking for the protected obligations. */
  function Propagation(p: Problem, removed: set<nat>): Search {
    Search(p.graph.conservative, p.sources, removed, Marked(p.isProtected))
  }

  /** A source still reaches an obligation once `removed` is gone, in zero or more hops. */
  ghost predicate Connects(p: Problem, removed: set<nat>) {
    exists q :: TargetWalk(Propagation(p, removed), q)
  }

  function Weight(p: Problem, c: set<nat>): nat {
    SumOver(p.weights, c)
  }

  function Flags(mask: seq<bool>): (f: seq<nat>)
    ensures |f| == |mask|
  {
    seq(|mask|, i requires 0 <= i < |mask| => if mask[i] then 1 else 0)
  }

  function ProtectedInclusions(p: Problem, c: set<nat>): nat {
    SumOver(Flags(p.isProtected), c)
  }

  /** Members are containable nodes, and obligations only where the policy authorizes it. */
  ghost predicate AllEligible(p: Problem, c: set<nat>)
    requires p.Valid()
  {
    forall v :: v in c ==> v < p.NodeCount() && p.IsEligible(v)
  }

  /** The five hard constraints on a containment set. */
  ghost predicate Feasible(p: Problem, c: set<nat>)
    requires p.Valid()
  {
    && AllEligible(p, c)
    && p.Mandatory() <= c
    && |c| <= p.maxMembers && Weight(p, c) <= p.maxTotalWeight
    && !Connects(p, c)
  }

  // ---------------------------------------------------------------------
  // Objective
  // ---------------------------------------------------------------------

  datatype Objective = Objective(
    protectedInclusions: nat, totalWeight: nat, cardinality: nat, signature: seq<ResourceId>)

  predicate ObjectiveLess(a: Objective, b: Objective, minimizeProtected: bool) {
    if minimizeProtected && a.protectedInclusions != b.protectedInclusions then
      a.protectedInclusions < b.protectedInclusions
    else if a.totalWeight != b.totalWeight then a.totalWeight < b.totalWeight
    else if a.cardinality != b.cardinality then a.cardinality < b.cardinality
    else SignatureLess(a.signature, b.signature)
  }

  /** The members of `c` below `n`, in ascending order. */
  function MembersBelow(c: set<nat>, n: nat): (s: seq<nat>)
    ensures Ascending(s) && Elements(s) == set v: nat | v in c && v < n
    ensures forall i :: 0 <= i < |s| ==> s[i] < n && s[i] in c
  {
    if n == 0 then []
    else
      var rest := MembersBelow(c, n - 1);
      if n - 1 in c then
        ElementsAppend(rest, n - 1);
        assert (set v: nat | v in c && v < n) == (set v: nat | v in c && v < n - 1) + {n - 1};
        rest + [n - 1]
      else rest
  }

  function Signature(p: Problem, members: seq<nat>): seq<ResourceId>
    requires forall i :: 0 <= i < |members| ==> members[i] < |p.ids|
  {
    seq(|members|, i requires 0 <= i < |members| => p.ids[members[i]])
  }

  /** The value of a containment set, independent of how it was found. */
  function ObjectiveOf(p: Problem, c: set<nat>): Objective {
    var members := MembersBelow(c, |p.ids|);
    Objective(ProtectedInclusions(p, c), Weight(p, c), |c|, Signature(p, members))
  }

  /** Irreflexive and transitive in both modes; total as soon as the signatures differ. */
  lemma ObjectiveTransitive(a: Objective, b: Objective, c: Objective, m: bool)
    requires ObjectiveLess(a, b, m)
    requires ObjectiveLess(b, c, m) || !ObjectiveLess(c, b, m)
    ensures ObjectiveLess(a, c, m)
  {
    SignatureOrder();
  }

  lemma ObjectiveIrreflexive(a: Objective, m: bool)
    ensures !ObjectiveLess(a, a, m)
  {
    SignatureOrder();
  }

  lemma ObjectiveTotal(a: Objective, b: Objective, m: bool)
    requires a.signature != b.signature
    ensures ObjectiveLess(a, b, m) || ObjectiveLess(b, a, m)
  {
    SignatureOrder();
  }

  /** The signature identifies the set, so two different sets never tie. */
  lemma SignatureIdentifies(p: Problem, a: set<nat>, b: set<nat>)
    requires p.Valid()
    requires forall v :: v in a + b ==> v < p.NodeCount()
    requires ObjectiveOf(p, a).signature == ObjectiveOf(p, b).signature
    ensures a == b
  {
    var s, t := MembersBelow(a, |p.ids|), MembersBelow(b, |p.ids|);
    assert Elements(s) == a by {
      forall v | v in a ensures v in Elements(s) { assert v in a + b; }
    }
    assert Elements(t) == b by {
      forall v | v in b ensures v in Elements(t) { assert v in a + b; }
    }
    assert |s| == |Signature(p, s)| == |Signature(p, t)| == |t|;
    IdOrder();
    forall i | 0 <= i < |s| ensures s[i] == t[i] {
      assert Signature(p, s)[i] == p.ids[s[i]] && Signature(p, t)[i] == p.ids[t[i]];
    }
    assert s == t;
  }

  /** Any two different sets of nodes are strictly ordered: an optimum is unique. */
  lemma ObjectivesDiffer(p: Problem, a: set<nat>, b: set<nat>, m: bool)
    requires p.Valid() && a != b
    requires forall v :: v in a + b ==> v < p.NodeCount()
    ensures ObjectiveLess(ObjectiveOf(p, a), ObjectiveOf(p, b), m)
         || ObjectiveLess(ObjectiveOf(p, b), ObjectiveOf(p, a), m)
  {
    if ObjectiveOf(p, a).signature == ObjectiveOf(p, b).signature {
      SignatureIdentifies(p, a, b);
    } else {
      ObjectiveTotal(ObjectiveOf(p, a), ObjectiveOf(p, b), m);
    }
  }

  /** Growing a set makes its objective strictly worse, in both modes. */
  lemma SupersetIsWorse(p: Problem, a: set<nat>, b: set<nat>, m: bool)
    requires p.Valid() && a < b
    requires forall v :: v in b ==> v < p.NodeCount()
    ensures ObjectiveLess(ObjectiveOf(p, a), ObjectiveOf(p, b), m)
  {
    SumMonotone(Flags(p.isProtected), a, b);
    SumStrict(p.weights, a, b);
  }

  /** Weight sums of an instance stay inside an unsigned 64-bit word. */
  lemma WeightFits(p: Problem, c: set<nat>)
    requires p.Valid()
    ensures Weight(p, c) <= MAX_TOPOLOGY_NODES * MAX_NODE_WEIGHT < MAX_U64
  {
    SumBounded(p.weights, c, MAX_NODE_WEIGHT);
  }

  // ---------------------------------------------------------------------
  // Optimality
  // ---------------------------------------------------------------------

  /** `c` is the unique feasible minimum over all sets of nodes. */
  ghost predicate UniqueOptimum(p: Problem, c: set<nat>)
    requires p.Valid()
  {
    && Feasible(p, c)
    && forall d :: Feasible(p, d) && d != c
         ==> ObjectiveLess(ObjectiveOf(p, c), ObjectiveOf(p, d), p.minimizeProtected)
  }

  ghost predicate Infeasible(p: Problem)
    requires p.Valid()
  {
    forall d :: !Feasible(p, d)
  }

  lemma OptimumIsUnique(p: Problem, a: set<nat>, b: set<nat>)
    requires p.Valid() && UniqueOptimum(p, a) && UniqueOptimum(p, b)
    ensures a == b
  {
    if a != b {
      ObjectiveTransitive(ObjectiveOf(p, a), ObjectiveOf(p, b), ObjectiveOf(p, a), p.minimizeProtected);
      ObjectiveIrreflexive(ObjectiveOf(p, a), p.minimizeProtected);
    }
  }

  /** Removing more nodes never reconnects. */
  lemma ConnectsAntitone(p: Problem, a: set<nat>, b: set<nat>)
    requires a <= b && Connects(p, b)
    ensures Connects(p, a)
  {
    var q :| TargetWalk(Propagation(p, b), q);
    assert TargetWalk(Propagation(p, a), q);
  }
}
