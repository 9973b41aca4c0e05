/** A three-node request on which the exact solver's answer depends on the order of its sources: the failed
    node `b` is also an obligation, nothing requires it inside, and it lies beside the first path. */
module Shortcut {
  import opened Collections
  import opened Resources
  import opened Sorting
  import opened Topologies
  import opened PropagationGraphs
  import opened BreadthFirst
  import opened Containment
  import opened ResidualPaths
  import opened CutVerifier
  import opened SearchBounds
  import opened ExactSolver
  import opened Instances
  import opened ListingOrder

  function Definition(): Topology {
    Topology(1,
      [NodeSpec("a", true, 10, false, Complete), NodeSpec("b", true, 1, false, Complete), NodeSpec("c", true, 1, false, Complete)],
      [Edge(0, 2, Proven, 1), Edge(1, 2, Proven, 1)])
  }

  function Links(): Graph {
    Graph([[2], [2], []], [[], [], [0, 1]], [[2], [2], []], {})
  }

  /** `first` tells whether `a` is listed before `b`. */
  function Request(first: bool): InstanceSpec {
    InstanceSpec(if first then ["a", "b"] else ["b", "a"], ["b", "c"], [], false, true, false, 100, 3)
  }

  function Requested(first: bool): Problem {
    Problem(Links(), if first then [0, 1] else [1, 0], [1, 2], [], [0, 1, 2], ["a", "b", "c"], [true, true, true],
      [false, true, true], [true, true, false], [10, 1, 1], false, true, false, 100, 3)
  }

  // ---------------------------------------------------------------------
  // The builder produces it
  // ---------------------------------------------------------------------

  lemma DefinitionValid()
    ensures Definition().Valid()
  {
    var t := Definition();
    assert LexLess((x: char, y: char) => x < y, "a", "b") && LexLess((x: char, y: char) => x < y, "b", "c");
    assert LexLess((x: char, y: char) => x < y, "a", "c");
    assert StrictlySortedBy(NodeLess, t.nodes);
    assert forall i :: 0 <= i < |t.nodes| ==> NodeOk(t.nodes[i]);
  }

  lemma LinksOfDefinition()
    ensures GraphOf(Definition(), Links()) && Links().Valid()
  {
    var t, g := Definition(), Links();
    forall classes, u, v ensures HasEdge(t.edges, classes, u, v) <==> Proven in classes && (u == 0 || u == 1) && v == 2 {
      EdgesOfDefinition(classes, u, v);
    }
    hide HasEdge;
  }

  lemma EdgesOfDefinition(classes: set<EdgeEvidence>, u: nat, v: nat)
    ensures HasEdge(Definition().edges, classes, u, v) <==> Proven in classes && (u == 0 || u == 1) && v == 2
  {
    var edges := Definition().edges;
    if Proven in classes && u == 0 && v == 2 { assert edges[0].from == 0; }
    if Proven in classes && u == 1 && v == 2 { assert edges[1].from == 1; }
  }

  lemma FindAll()
    ensures var nodes := Definition().nodes;
      Find(nodes, "a") == Some(0) && Find(nodes, "b") == Some(1) && Find(nodes, "c") == Some(2)
  {
    DefinitionValid();
    FindUnique(Definition().nodes, 0);
    FindUnique(Definition().nodes, 1);
    FindUnique(Definition().nodes, 2);
  }

  lemma RequestBuilds(first: bool)
    ensures SpecOk(Definition().nodes, Request(first))
    ensures BuiltFrom(Definition(), Links(), Request(first), Requested(first))
  {
    var t, spec, p := Definition(), Request(first), Requested(first);
    FindAll();
    hide Find;
    assert Indices(t.nodes, spec.failureSources) == p.sources;
    assert Indices(t.nodes, spec.protectedObligations) == [1, 2];
    assert Indices(t.nodes, spec.forcedIneligible) == [];
    Masks(first);
  }

  lemma Masks(first: bool)
    ensures var p := Requested(first);
      Marked(p.isSource) == Elements(p.sources) == {0, 1} && Marked(p.isProtected) == Elements(p.protectedNodes) == {1, 2}
  {
    var p := Requested(first);
    assert 0 in p.sources && 1 in p.sources by { assert p.sources[0] == 0 || p.sources[1] == 0; assert p.sources[0] == 1 || p.sources[1] == 1; }
    assert p.protectedNodes[0] == 1 && p.protectedNodes[1] == 2;
  }

  lemma RequestedValid(first: bool)
    ensures Requested(first).Valid() && Requested(first).ObligationsSettled() && !Requested(first).OverlapSettled()
    ensures Requested(first).Mandatory() == {}
  {
    var p := Requested(first);
    LinksOfDefinition();
    Masks(first);
    DefinitionValid();
    assert StrictlySorted(p.ids) by {
      assert LexLess((x: char, y: char) => x < y, "a", "b") && LexLess((x: char, y: char) => x < y, "b", "c");
      assert LexLess((x: char, y: char) => x < y, "a", "c");
    }
    assert p.IsOverlap(1) && p.IsEligible(1);
  }

  // ---------------------------------------------------------------------
  // Paths and feasible sets
  // ---------------------------------------------------------------------

  lemma LinkExactly(u: nat, x: nat)
    ensures Link(Links().conservative, u, x) <==> (u == 0 || u == 1) && x == 2
  {
  }

  lemma Paths(first: bool, removed: set<nat>, w: seq<nat>)
    ensures TargetWalk(Residual(Requested(first), removed), w)
      <==> (w == [0, 2] && removed !! {0, 2}) || (w == [1, 2] && removed !! {1, 2})
  {
    var s := Residual(Requested(first), removed);
    Masks(first);
    assert s.targets == {2};
    forall u: nat, x: nat ensures Link(s.succ, u, x) <==> (u == 0 || u == 1) && x == 2 { LinkExactly(u, x); }
    hide Link, Requested;
    if TargetWalk(s, w) {
      assert w[0] in Elements(s.sources);
      assert |w| > 1;
      WalkStep(s, w, 1);
      if |w| > 2 { WalkStep(s, w, 2); }
      assert w == [w[0], 2];
    }
    if (w == [0, 2] && removed !! {0, 2}) || (w == [1, 2] && removed !! {1, 2}) {
      assert w[0] in Elements(s.sources);
      assert |s.succ| == 3;
    }
  }

  lemma PathLeft(first: bool, c: set<nat>)
    ensures HasResidualPath(Requested(first), c) <==> c !! {0, 2} || c !! {1, 2}
  {
    hide TargetWalk, Residual;
    Paths(first, c, [0, 2]);
    Paths(first, c, [1, 2]);
    if HasResidualPath(Requested(first), c) {
      var w :| TargetWalk(Residual(Requested(first), c), w);
      Paths(first, c, w);
    }
  }

  /** A feasible set holds the overlap and, besides, `a` or `c`. */
  lemma FeasibleExactly(first: bool, c: set<nat>)
    requires Requested(first).Valid()
    ensures Feasible(Requested(first), c) <==> c <= {0, 1, 2} && 1 in c && (0 in c || 2 in c)
  {
    hide HasResidualPath, Residual, Graph.Valid;
    var p := Requested(first);
    ConnectsExactly(p, c);
    PathLeft(first, c);
    assert p.IsOverlap(1) && forall v: nat :: p.IsOverlap(v) ==> v == 1;
    if c <= {0, 1, 2} {
      SubsetCount(c, {0, 1, 2});
      Weights(first, c);
    }
    assert p.Mandatory() == {};
    assert AllEligible(p, c) <==> c <= {0, 1, 2} by {
      assert forall v: nat :: v < 3 ==> p.IsEligible(v);
    }
  }

  lemma Weights(first: bool, c: set<nat>)
    ensures Weight(Requested(first), c) == (if 0 in c then 10 else 0) + (if 1 in c then 1 else 0) + (if 2 in c then 1 else 0)
  {
    var w := Requested(first).weights;
    assert w[..2][..1][..0] == [] && w[..2][..1] == w[..1];
    assert SumOver(w[..1], c) == if 0 in c then 10 else 0;
    assert SumOver(w[..2], c) == SumOver(w[..1], c) + if 1 in c then 1 else 0;
  }

  // ---------------------------------------------------------------------
  // What branching reaches
  // ---------------------------------------------------------------------

  lemma NoPath(first: bool, removed: set<nat>)
    requires 2 in removed || {0, 1} <= removed
    ensures !HasResidualPath(Requested(first), removed)
  {
    forall w ensures !TargetWalk(Residual(Requested(first), removed), w) { Paths(first, removed, w); }
  }

  /** The first path starts at the source listed first. */
  lemma FirstPath(first: bool)
    ensures LeastTargetWalk(Residual(Requested(first), {}), if first then [0, 2] else [1, 2])
  {
    var p := Requested(first);
    var q: seq<nat>, r: seq<nat> := if first then [0, 2] else [1, 2], if first then [1, 2] else [0, 2];
    assert IndexOf(p.sources, q[0]) == 0 && IndexOf(p.sources, r[0]) == 1;
    Paths(first, {}, q);
    forall w | TargetWalk(Residual(p, {}), w) ensures AtMost(p.sources, q, w) {
      Paths(first, {}, w);
      if w == r { assert DiffersFirstAt(p.sources, q, r, 0); }
    }
  }

  /** Once one source is contained the path of the other is the only one left. */
  lemma SecondPath(first: bool, taken: nat)
    requires taken == 0 || taken == 1
    ensures LeastTargetWalk(Residual(Requested(first), {taken}), [1 - taken, 2])
  {
    var p := Requested(first);
    Paths(first, {taken}, [1 - taken, 2]);
    forall w | TargetWalk(Residual(p, {taken}), w) ensures w == [1 - taken, 2] { Paths(first, {taken}, w); }
  }

  lemma Leaf(first: bool, included: set<nat>, c: set<nat>)
    requires Requested(first).Valid() && included <= c && !HasResidualPath(Requested(first), included)
    ensures Reaches(Requested(first), included, c) <==> Feasible(Requested(first), included)
  {
  }

  /** With `a` listed first, branching gives up the overlap `b` together with `c`. */
  lemma ReachedExactly(first: bool, c: set<nat>)
    requires Requested(first).Valid() && Feasible(Requested(first), c)
    ensures Reaches(Requested(first), {}, c) <==> !first || 0 in c
  {
    hide Reaches, Feasible, Requested, LeastTargetWalk, HasResidualPath, Residual;
    FeasibleExactly(first, c);
    FirstPath(first);
    var taken: nat := if first then 0 else 1;
    var path := [taken, 2];
    assert path[0] == taken && path[1] == 2;
    if taken in c {
      ReachesOn(Requested(first), {}, c, path, 0);
      assert {} + {path[0]} == {taken};
      ReachedFrom(first, taken, c);
    } else {
      ReachesOn(Requested(first), {}, c, path, 1);
      assert {} + {path[1]} == {2};
      NoPath(first, {2});
      Leaf(first, {2}, c);
      FeasibleExactly(first, {2});
    }
  }

  lemma ReachedFrom(first: bool, taken: nat, c: set<nat>)
    requires Requested(first).Valid() && Feasible(Requested(first), c) && (taken == 0 || taken == 1) && taken in c
    ensures Reaches(Requested(first), {taken}, c)
  {
    hide Reaches, Feasible, Requested, LeastTargetWalk, HasResidualPath, Residual;
    FeasibleExactly(first, c);
    SecondPath(first, taken);
    var path := [1 - taken, 2];
    assert path[0] == 1 - taken && path[1] == 2;
    var i: nat := if path[0] in c then 0 else 1;
    ReachesOn(Requested(first), {taken}, c, path, i);
    NoPath(first, {taken} + {path[i]});
    Leaf(first, {taken} + {path[i]}, c);
    FeasibleExactly(first, {taken} + {path[i]});
  }

  // ---------------------------------------------------------------------
  // The answers
  // ---------------------------------------------------------------------

  function Answer(first: bool): set<nat> {
    if first then {0, 1} else {1, 2}
  }

  lemma AnswerIsBest(first: bool, c: set<nat>)
    requires Requested(first).Valid() && Feasible(Requested(first), c) && (first ==> 0 in c)
    ensures c == Answer(first)
         || ObjectiveLess(ObjectiveOf(Requested(first), Answer(first)), ObjectiveOf(Requested(first), c), false)
  {
    hide Feasible;
    FeasibleExactly(first, c);
    Weights(first, c);
    Weights(first, Answer(first));
    if c != Answer(first) && first { assert c == {0, 1, 2}; }
    if c != Answer(first) && !first { assert 0 in c; }
  }

  /** Every completed answer claims an optimum. Listing `b` first it is the optimum; listing `a` first it
      costs 11 where 2 would do. */
  lemma OrderDecidesAnswer(first: bool, maxExplored: nat, s: CutSolution)
    requires Requested(first).Valid() && SolutionOk(Requested(first), maxExplored, s) && !s.budgetExhausted
    ensures s.status.ProvenOptimal? && Elements(s.members) == Answer(first)
    ensures UniqueOptimum(Requested(first), Elements(s.members)) <==> !first
  {
    hide Reaches, Feasible, Problem.Valid, ObjectiveOf, ObjectiveLess;
    var p, a, b := Requested(first), Answer(first), Elements(s.members);
    RequestedValid(first);
    FeasibleExactly(first, a);
    ReachedExactly(first, a);
    assert s.HasSolution();
    ReachedExactly(first, b);
    AnswerIsBest(first, b);
    if b != a {
      ObjectiveTransitive(ObjectiveOf(p, a), ObjectiveOf(p, b), ObjectiveOf(p, a), false);
      ObjectiveIrreflexive(ObjectiveOf(p, a), false);
    }
    AnswerOptimal(first);
  }

  lemma AnswerOptimal(first: bool)
    requires Requested(first).Valid()
    ensures UniqueOptimum(Requested(first), Answer(first)) <==> !first
  {
    hide Feasible, Problem.Valid, ObjectiveOf, ObjectiveLess;
    var p := Requested(first);
    if first {
      FeasibleExactly(true, {1, 2});
      Cheaper();
      if UniqueOptimum(p, {0, 1}) {
        assert 0 in {0, 1} && 0 !in {1, 2};
        ObjectiveTransitive(ObjectiveOf(p, {1, 2}), ObjectiveOf(p, {0, 1}), ObjectiveOf(p, {1, 2}), false);
        ObjectiveIrreflexive(ObjectiveOf(p, {1, 2}), false);
      }
    } else {
      FeasibleExactly(false, {1, 2});
      forall c | Feasible(p, c) && c != {1, 2} ensures ObjectiveLess(ObjectiveOf(p, {1, 2}), ObjectiveOf(p, c), false) {
        AnswerIsBest(false, c);
      }
    }
  }

  lemma Cheaper()
    ensures ObjectiveLess(ObjectiveOf(Requested(true), {1, 2}), ObjectiveOf(Requested(true), {0, 1}), false)
  {
    Weights(true, {1, 2});
    Weights(true, {0, 1});
  }

  /** Two requests that differ only in the order of their sources, both built, with different answers: without
      settled overlaps the listing order does decide. */
  lemma ListingOrderMatters(m: nat, n: nat, s: CutSolution, t: CutSolution)
    requires Requested(true).Valid() && SolutionOk(Requested(true), m, s) && !s.budgetExhausted
    requires Requested(false).Valid() && SolutionOk(Requested(false), n, t) && !t.budgetExhausted
    ensures SameRequest(Request(true), Request(false)) && Relisted(Requested(true), Requested(false))
    ensures BuiltFrom(Definition(), Links(), Request(true), Requested(true))
    ensures BuiltFrom(Definition(), Links(), Request(false), Requested(false))
    ensures s.status == t.status && s.members != t.members
  {
    hide SolutionOk, Problem.Valid, BuiltFrom, SameRequest, Relisted, Requested, Answer;
    RequestBuilds(true);
    RequestBuilds(false);
    OnlyOrderDiffers();
    OrderDecidesAnswer(true, m, s);
    OrderDecidesAnswer(false, n, t);
    AnswersDiffer();
  }

  lemma OnlyOrderDiffers()
    ensures SameRequest(Request(true), Request(false)) && Relisted(Requested(true), Requested(false))
  {
    Swapped("a", "b");
    Swapped<nat>(0, 1);
  }

  lemma Swapped<T>(x: T, y: T)
    ensures multiset([x, y]) == multiset([y, x])
  {
  }

  lemma AnswersDiffer()
    ensures Answer(true) != Answer(false)
  {
    assert 0 in Answer(true) && 0 !in Answer(false);
  }
}
