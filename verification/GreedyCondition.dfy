/** The greedy solver promises a minimal answer. The promise can break exactly when the containable nodes hold a
    trap for the weight bound, a condition on weights and bounds alone. */
module GreedyCondition {
  import opened Collections
  import opened Resources
  import opened PropagationGraphs
  import opened BreadthFirst
  import opened Containment
  import opened ResidualPaths
  import opened CutVerifier
  import opened SearchBounds
  import opened ExactSolver
  import opened Minimality
  import opened HeuristicSolver

  // ---------------------------------------------------------------------
  // The greedy list is determined
  // ---------------------------------------------------------------------

  lemma CheaperByIndex(p: Problem, u: nat, v: nat)
    requires p.Valid() && u < p.NodeCount() && v < p.NodeCount()
    ensures Cheaper(p, u, v) <==> p.weights[u] < p.weights[v] || (p.weights[u] == p.weights[v] && u < v)
  {
    IdOrder();
    if u < v { assert IdLess(p.ids[u], p.ids[v]); }
    if v < u { assert IdLess(p.ids[v], p.ids[u]); }
  }

  lemma PickUnique(p: Problem, path: seq<nat>, u: nat, v: nat)
    requires p.Valid() && (forall i :: 0 <= i < |path| ==> path[i] < p.NodeCount())
    requires GreedyPick(p, path, u) && GreedyPick(p, path, v)
    ensures u == v
  {
    CheaperByIndex(p, u, v);
    CheaperByIndex(p, v, u);
  }

  lemma StepUnique(p: Problem, a: seq<nat>, b: seq<nat>, u: nat, v: nat)
    requires p.Valid() && Elements(a) == Elements(b) && GreedyStep(p, a, u) && GreedyStep(p, b, v)
    ensures u == v
  {
    hide LeastTargetWalk, GreedyPick, Problem.Valid;
    var q :| LeastTargetWalk(Residual(p, Elements(a)), q)
      && (forall i :: 0 <= i < |q| ==> q[i] < p.NodeCount()) && GreedyPick(p, q, u);
    var r :| LeastTargetWalk(Residual(p, Elements(b)), r)
      && (forall i :: 0 <= i < |r| ==> r[i] < p.NodeCount()) && GreedyPick(p, r, v);
    LeastTargetWalkUnique(Residual(p, Elements(a)), q, r);
    PickUnique(p, q, u, v);
  }

  lemma {:induction false} SamePrefix(p: Problem, a: seq<nat>, i: nat, b: seq<nat>, j: nat, k: nat)
    requires p.Valid() && GreedyList(p, a, i) && GreedyList(p, b, j) && i + k <= |a| && j + k <= |b|
    ensures Elements(a[..i + k]) == Elements(b[..j + k])
  {
    hide GreedyStep, Problem.Valid;
    if k > 0 {
      SamePrefix(p, a, i, b, j, k - 1);
      StepUnique(p, a[..i + k - 1], b[..j + k - 1], a[i + k - 1], b[j + k - 1]);
      assert a[..i + k] == a[..i + k - 1] + [a[i + k - 1]];
      assert b[..j + k] == b[..j + k - 1] + [b[j + k - 1]];
      ElementsAppend(a[..i + k - 1], a[i + k - 1]);
      ElementsAppend(b[..j + k - 1], b[j + k - 1]);
    }
  }

  lemma StepHasPath(p: Problem, before: seq<nat>, v: nat)
    requires p.Valid() && GreedyStep(p, before, v)
    ensures HasResidualPath(p, Elements(before))
  {
  }

  /** Two runs that end without residual path have collected the same nodes. */
  lemma GreedyDetermined(p: Problem, a: seq<nat>, i: nat, b: seq<nat>, j: nat)
    requires p.Valid() && GreedyList(p, a, i) && GreedyList(p, b, j)
    requires !HasResidualPath(p, Elements(a)) && !HasResidualPath(p, Elements(b))
    ensures Elements(a) == Elements(b)
  {
    hide GreedyStep, HasResidualPath, Problem.Valid;
    var k: nat := if |a| - i < |b| - j then |a| - i else |b| - j;
    SamePrefix(p, a, i, b, j, k);
    assert a[..|a|] == a && b[..|b|] == b;
    if i + k < |a| {
      StepHasPath(p, a[..i + k], a[i + k]);
    } else if j + k < |b| {
      StepHasPath(p, b[..j + k], b[j + k]);
    }
  }

  // ---------------------------------------------------------------------
  // Traps
  // ---------------------------------------------------------------------

  /** Containable nodes among which the lighter of two redundant ones comes first. */
  datatype Trap = Trap(others: set<nat>, light: nat, heavy: nat, last: nat) {
    function All(): set<nat> { others + {light, heavy, last} }
  }

  /** Dropping `light` leaves too much weight, dropping `heavy` does not, and `last` is dearer than both. */
  ghost predicate IsTrap(p: Problem, t: Trap)
    requires p.Valid()
  {
    && t.All() <= Marked(p.containable) && t.others !! {t.light, t.heavy, t.last}
    && t.light < t.heavy && p.weights[t.light] < p.weights[t.heavy]
    && (p.weights[t.heavy] < p.weights[t.last] || (p.weights[t.heavy] == p.weights[t.last] && t.heavy < t.last))
    && |t.All()| <= p.maxMembers + 1
    && p.maxTotalWeight + p.weights[t.light] < Weight(p, t.All()) <= p.maxTotalWeight + p.weights[t.heavy]
  }

  ghost predicate HasTrap(p: Problem)
    requires p.Valid()
  {
    exists t :: IsTrap(p, t)
  }

  /** A weight bound that any one containable node less would meet leaves no room for a trap. */
  lemma AmpleWeight(p: Problem)
    requires p.Valid()
    requires forall v :: v in Marked(p.containable) ==> Weight(p, Marked(p.containable)) <= p.maxTotalWeight + p.weights[v]
    ensures !HasTrap(p)
  {
    forall t ensures !IsTrap(p, t) {
      if IsTrap(p, t) {
        assert t.light in t.All();
        SumMonotone(p.weights, t.All(), Marked(p.containable));
      }
    }
  }

  /** So does a single weight for all of them. */
  lemma EqualWeights(p: Problem)
    requires p.Valid()
    requires forall u, v :: u in Marked(p.containable) && v in Marked(p.containable) ==> p.weights[u] == p.weights[v]
    ensures !HasTrap(p)
  {
    forall t ensures !IsTrap(p, t) {
      assert t.light in t.All() && t.heavy in t.All();
    }
  }

  // ---------------------------------------------------------------------
  // Without a trap the answer is minimal
  // ---------------------------------------------------------------------

  lemma Sizes(p: Problem)
    requires p.Valid()
    ensures |p.isSource| == |p.isProtected| == |p.weights| == |p.ids| == p.NodeCount()
  {
  }

  /** One turn of the deletion pass. */
  lemma Turn(p: Problem, members: seq<nat>, i: nat)
    requires p.Valid() && Ascending(members) && Indexed(p, members) && i < |members|
    ensures var trial := WithoutIndex(members, i);
      && Ascending(trial) && Indexed(p, trial) && Elements(trial) == Elements(members) - {members[i]}
      && (forall j :: 0 <= j < i ==> trial[j] == members[j]) && (forall j :: i < j < |members| ==> trial[j - 1] == members[j])
      && ReverseDeletion(p, members, i) ==
           if members[i] !in p.Mandatory() && Feasible(p, Elements(trial)) then ReverseDeletion(p, trial, i)
           else ReverseDeletion(p, members, i + 1)
  {
    hide Feasible, Problem.Valid;
    Sizes(p);
    WithoutIndexFacts(members, i);
    NotMandatory(p, members[i]);
  }

  lemma Shrinks(p: Problem, members: seq<nat>, i: nat)
    requires p.Valid() && Ascending(members) && Indexed(p, members)
    ensures Elements(ReverseDeletion(p, members, i)) <= Elements(members)
  {
    DeletionKeeps(p, members, i);
  }

  lemma Dropped(p: Problem, members: seq<nat>, i: nat)
    requires p.Valid() && Ascending(members) && Indexed(p, members) && i < |members|
    requires members[i] !in p.Mandatory() && Feasible(p, Elements(members) - {members[i]})
    ensures members[i] !in ReverseDeletion(p, members, i)
  {
    hide Feasible, Problem.Valid, ReverseDeletion;
    Turn(p, members, i);
    Shrinks(p, WithoutIndex(members, i), i);
    assert members[i] !in Elements(ReverseDeletion(p, members, i));
  }

  /** From an infeasible list the pass reaches a feasible one only by a first accepted deletion. */
  lemma {:induction false} FirstAccepted(p: Problem, members: seq<nat>, i: nat) returns (k: nat)
    requires p.Valid() && Ascending(members) && Indexed(p, members)
    requires !Feasible(p, Elements(members)) && Feasible(p, Elements(ReverseDeletion(p, members, i)))
    ensures i <= k < |members| && members[k] !in ReverseDeletion(p, members, i)
    ensures Feasible(p, Elements(members) - {members[k]})
    decreases |members| - i
  {
    hide Feasible, Problem.Valid;
    assert i < |members|;
    hide ReverseDeletion;
    Turn(p, members, i);
    if members[i] !in p.Mandatory() && Feasible(p, Elements(members) - {members[i]}) {
      k := i;
      Dropped(p, members, i);
    } else {
      k := FirstAccepted(p, members, i + 1);
    }
  }

  /** Once the list is feasible, a member the result could do without does not survive its turn. */
  lemma {:induction false} Spared(p: Problem, members: seq<nat>, i: nat, j: nat)
    requires p.Valid() && Ascending(members) && Indexed(p, members) && i <= j < |members|
    requires Feasible(p, Elements(members)) && members[j] !in p.Mandatory()
    requires var r := ReverseDeletion(p, members, i); Feasible(p, Elements(r)) && Feasible(p, Elements(r) - {members[j]})
    ensures members[j] !in ReverseDeletion(p, members, i)
    decreases |members| - i
  {
    hide Feasible, Problem.Valid, ReverseDeletion;
    Turn(p, members, i);
    Shrinks(p, members, i);
    var r, x := ReverseDeletion(p, members, i), members[j];
    if i == j {
      Sandwich(p, Elements(r) - {x}, Elements(members) - {x}, Elements(members));
      Dropped(p, members, i);
    } else if members[i] !in p.Mandatory() && Feasible(p, Elements(members) - {members[i]}) {
      Spared(p, WithoutIndex(members, i), i, j - 1);
    } else {
      Spared(p, members, i + 1, j);
    }
  }

  lemma NotMandatory(p: Problem, v: nat)
    requires p.Valid() && v < p.NodeCount()
    ensures p.IsMandatory(v) <==> v in p.Mandatory()
  {
  }

  /** A survivor the result could do without was refused while the list was still infeasible, and a later
      member was the first to go. */
  lemma {:induction false} RefusedTooEarly(p: Problem, members: seq<nat>, i: nat, j: nat) returns (k: nat)
    requires p.Valid() && Ascending(members) && Indexed(p, members) && i <= j < |members|
    requires !Feasible(p, Elements(members)) && members[j] !in p.Mandatory()
    requires var r := ReverseDeletion(p, members, i);
      members[j] in r && Feasible(p, Elements(r)) && Feasible(p, Elements(r) - {members[j]})
    ensures j < k < |members| && members[k] !in ReverseDeletion(p, members, i)
    ensures Feasible(p, Elements(members) - {members[k]}) && !Feasible(p, Elements(members) - {members[j]})
    decreases |members| - i
  {
    hide Feasible, Problem.Valid, ReverseDeletion;
    Turn(p, members, i);
    if i == j {
      if Feasible(p, Elements(members) - {members[j]}) { Dropped(p, members, i); }
      k := FirstAccepted(p, members, i + 1);
    } else if members[i] !in p.Mandatory() && Feasible(p, Elements(members) - {members[i]}) {
      Spared(p, WithoutIndex(members, i), i, j - 1);
      k := j;
    } else {
      k := RefusedTooEarly(p, members, i + 1, j);
    }
  }

  /** A set that cuts and is refused all the same is over a bound. */
  lemma OverBound(p: Problem, low: set<nat>, c: set<nat>)
    requires p.Valid() && Feasible(p, low) && low <= c && AllEligible(p, c) && !Feasible(p, c)
    ensures |c| > p.maxMembers || Weight(p, c) > p.maxTotalWeight
  {
    if Connects(p, c) { ConnectsAntitone(p, low, c); }
  }

  /** The node that later took over the path of `v`. */
  lemma TakenOver(p: Problem, greedy: seq<nat>, start: nat, v: nat, c: set<nat>) returns (b: nat)
    requires p.Valid() && GreedyList(p, greedy, start) && v in greedy && v !in p.Mandatory()
    requires Feasible(p, c) && v !in c
    ensures b in c && b < p.NodeCount() && Cheaper(p, v, b)
  {
    hide LeastTargetWalk, Problem.Valid;
    Sizes(p);
    var k :| 0 <= k < |greedy| && greedy[k] == v;
    forall i | 0 <= i < start ensures greedy[i] in Elements(greedy[..start]) { assert greedy[..start][i] == greedy[i]; }
    var path :| LeastTargetWalk(Residual(p, Elements(greedy[..k])), path)
      && (forall i :: 0 <= i < |path| ==> path[i] < p.NodeCount()) && GreedyPick(p, path, v);
    LeastIsTarget(p, Elements(greedy[..k]), path);
    FeasibleHitsPath(p, c, Elements(greedy[..k]), path);
    var i :| 0 <= i < |path| && path[i] in c;
    b := path[i];
    assert p.containable[b] by { assert p.IsEligible(b); }
  }

  lemma LeastIsTarget(p: Problem, removed: set<nat>, path: seq<nat>)
    requires LeastTargetWalk(Residual(p, removed), path)
    ensures TargetWalk(Residual(p, removed), path)
  {
  }

  lemma GreedyEligible(p: Problem, greedy: seq<nat>, start: nat)
    requires p.Valid() && p.ObligationsSettled() && GreedyList(p, greedy, start)
    ensures AllEligible(p, Elements(greedy)) && Elements(greedy) <= Marked(p.containable)
  {
    hide GreedyStep;
    forall v | v in Elements(greedy) ensures v < p.NodeCount() && p.containable[v] {}
  }

  /** A feasible answer that is not minimal shows a trap. */
  lemma NotMinimalTraps(p: Problem, greedy: seq<nat>, start: nat)
    requires p.Valid() && p.ObligationsSettled() && GreedyList(p, greedy, start) && Indexed(p, Sorted(greedy))
    requires var r := Elements(ReverseDeletion(p, Sorted(greedy), 0)); Feasible(p, r) && !InclusionMinimal(p, r)
    ensures HasTrap(p)
  {
    hide Feasible, Problem.Valid, GreedyStep, Problem.ObligationsSettled, ReverseDeletion;
    var members, all := Sorted(greedy), Elements(greedy);
    DistinctSorted(greedy);
    Shrinks(p, members, 0);
    var r := ReverseDeletion(p, members, 0);
    var x := Spare(p, Elements(r));
    if Feasible(p, all) {
      RestoredFacts(p, greedy, r);
    } else {
      assert x in Elements(members);
      var j :| 0 <= j < |members| && members[j] == x;
      var k := RefusedTooEarly(p, members, 0, j);
      RefusalTraps(p, greedy, start, Elements(r), x, members[k]);
    }
  }

  lemma Spare(p: Problem, c: set<nat>) returns (x: nat)
    requires p.Valid() && Feasible(p, c) && !InclusionMinimal(p, c)
    ensures x in c && x !in p.Mandatory() && Feasible(p, c - {x})
  {
    hide Feasible, Problem.Valid;
    var low :| low < c && Feasible(p, low);
    x :| x in c && x !in low;
    Sandwich(p, low, c - {x}, c);
    HoldsMandatory(p, low);
  }

  lemma RefusalTraps(p: Problem, greedy: seq<nat>, start: nat, c: set<nat>, x: nat, d: nat)
    requires p.Valid() && p.ObligationsSettled() && GreedyList(p, greedy, start)
    requires c <= Elements(greedy) && {x, d} <= Elements(greedy) && x < d && d !in c && x in c
    requires Feasible(p, c) && Feasible(p, c - {x})
    requires Feasible(p, Elements(greedy) - {d}) && !Feasible(p, Elements(greedy) - {x})
    ensures HasTrap(p)
  {
    hide Feasible, Problem.Valid, GreedyList, Problem.ObligationsSettled;
    var all := Elements(greedy);
    HoldsMandatory(p, all - {d});
    var b := TakenOver(p, greedy, start, d, c);
    GreedyEligible(p, greedy, start);
    HoldsMandatory(p, c - {x});
    OverBound(p, c - {x}, all - {x});
    TrapFound(p, all, x, d, b);
  }

  lemma HoldsMandatory(p: Problem, c: set<nat>)
    requires p.Valid() && Feasible(p, c)
    ensures p.Mandatory() <= c && |c| <= p.maxMembers && Weight(p, c) <= p.maxTotalWeight
  {
  }

  lemma TrapFound(p: Problem, all: set<nat>, x: nat, d: nat, b: nat)
    requires p.Valid() && all <= Marked(p.containable) && {x, d, b} <= all && x < d && b != d && Cheaper(p, d, b)
    requires |all - {d}| <= p.maxMembers && Weight(p, all - {d}) <= p.maxTotalWeight
    requires |all - {x}| > p.maxMembers || Weight(p, all - {x}) > p.maxTotalWeight
    ensures HasTrap(p)
  {
    SumRemove(p.weights, all, d);
    SumRemove(p.weights, all, x);
    CheaperByIndex(p, d, b);
    var t := Trap(all - {x, d, b}, x, d, b);
    assert t.All() == all;
    assert IsTrap(p, t);
  }

  lemma GreedyHoldsMandatory(p: Problem, greedy: seq<nat>, start: nat)
    requires p.Valid() && GreedyList(p, greedy, start)
    ensures p.Mandatory() <= Elements(greedy)
  {
    hide GreedyStep, Problem.Valid;
    forall v | v in p.Mandatory() ensures v in Elements(greedy) {
      assert v in Elements(greedy[..start]);
    }
  }

  /** A greedy list within the bounds that leaves no residual path is feasible, or nothing is. */
  lemma WithinBounds(p: Problem, greedy: seq<nat>, start: nat)
    requires p.Valid() && p.ObligationsSettled() && p.OverlapSettled() && GreedyList(p, greedy, start)
    requires !HasResidualPath(p, Elements(greedy))
    requires |Elements(greedy)| <= p.maxMembers && Weight(p, Elements(greedy)) <= p.maxTotalWeight
    ensures Feasible(p, Elements(greedy)) || Infeasible(p)
  {
    hide GreedyList, HasResidualPath;
    GreedyHoldsMandatory(p, greedy, start);
    GreedyEligible(p, greedy, start);
    ConnectsExactly(p, Elements(greedy));
    if v: nat :| p.IsOverlap(v) && v !in Elements(greedy) {
      NotMandatory(p, v);
      BarredOverlap(p, v);
    }
  }

  /** When the bounds admit all containable nodes, and failed and protected nodes are settled, an answer within the
      budget is minimal wherever anything is feasible. */
  lemma AmpleBounds(p: Problem, m: nat, s: CutSolution)
    requires p.Valid() && p.ObligationsSettled() && p.OverlapSettled()
    requires |Marked(p.containable)| <= p.maxMembers && Weight(p, Marked(p.containable)) <= p.maxTotalWeight
    requires Answers(p, m, s) && !s.budgetExhausted
    ensures Infeasible(p) || (s.status.FeasibleNotProvenOptimal? && InclusionMinimal(p, Elements(s.members)))
  {
    hide Problem.Valid, GreedyList, Feasible, Problem.ObligationsSettled, Problem.OverlapSettled, ReverseDeletion;
    var greedy, start :| GreedyList(p, greedy, start) && HeuristicOk(p, m, s, greedy);
    if !s.status.ProvenInfeasible? {
      GreedyEligible(p, greedy, start);
      SubsetCount(Elements(greedy), Marked(p.containable));
      SumMonotone(p.weights, Elements(greedy), Marked(p.containable));
      WithinBounds(p, greedy, start);
      if Feasible(p, Elements(greedy)) {
        GreedyDistinct(p, greedy, start);
        RestoredFacts(p, greedy, ReverseDeletion(p, Sorted(greedy), 0));
      }
    }
  }

  lemma GreedyDistinct(p: Problem, greedy: seq<nat>, start: nat)
    requires p.Valid() && GreedyList(p, greedy, start)
    ensures Distinct(greedy) && Indexed(p, greedy)
  {
  }

  // ---------------------------------------------------------------------
  // With a trap some graph makes the answer not minimal
  // ---------------------------------------------------------------------

  /** `q` keeps the containable nodes, their weights and the bounds. Graph, roles and policy are its own, and so
      are further nodes, none of them containable. */
  ghost predicate Carries(p: Problem, q: Problem)
    requires p.Valid()
  {
    && q.Valid() && q.ObligationsSettled() && p.NodeCount() <= q.NodeCount()
    && (forall v :: 0 <= v < p.NodeCount() ==> q.containable[v] == p.containable[v] && q.weights[v] == p.weights[v])
    && (forall v :: p.NodeCount() <= v < q.NodeCount() ==> !q.containable[v])
    && q.maxTotalWeight == p.maxTotalWeight && q.maxMembers == p.maxMembers
  }

  lemma {:induction false} SumPrefix(w: seq<nat>, more: seq<nat>, c: set<nat>)
    requires w <= more && forall v :: v in c ==> v < |w|
    ensures SumOver(more, c) == SumOver(w, c)
    decreases |more|
  {
    if |w| < |more| {
      SumPrefix(w, more[..|more| - 1], c);
    } else {
      assert w == more;
    }
  }

  lemma CarriedWeight(p: Problem, q: Problem, c: set<nat>)
    requires p.Valid() && Carries(p, q) && c <= Marked(p.containable)
    ensures Weight(q, c) == Weight(p, c)
  {
    assert p.weights <= q.weights;
    SumPrefix(p.weights, q.weights, c);
  }

  lemma CarriedTrap(p: Problem, q: Problem)
    requires p.Valid() && Carries(p, q) && HasTrap(q)
    ensures HasTrap(p)
  {
    var t :| IsTrap(q, t);
    forall v | v in Marked(q.containable) ensures v in Marked(p.containable) {}
    assert {t.light, t.heavy, t.last} <= Marked(p.containable) by { assert {t.light, t.heavy, t.last} <= t.All(); }
    CarriedWeight(p, q, t.All());
    assert IsTrap(p, t);
  }

  /** A source, a detour node and an obligation are new. Each other node has a route of its own; `light`, `heavy` and
      the detour share the route through `last`. */
  function Detour(p: Problem, t: Trap): Problem
    requires p.Valid()
  {
    var n := p.NodeCount();
    Problem(
      Graph(seq(n + 3, u requires u >= 0 => DetourOut(t, n, u)), seq(n + 3, u requires u >= 0 => DetourIn(t, n, u)),
            seq(n + 3, _ => []), {}),
      [n], [n + 2], [], [], seq(n + 3, i requires i >= 0 => Letters(i)),
      p.containable + [false, false, false], seq(n + 3, v => v == n + 2), seq(n + 3, v => v == n), p.weights + [1, 1, 1],
      false, false, p.minimizeProtected, p.maxTotalWeight, p.maxMembers)
  }

  /** The nodes on the way to `last`. */
  function Leads(t: Trap, n: nat): set<nat> { {t.light, t.heavy, n + 1} }

  function DetourOut(t: Trap, n: nat, u: nat): seq<nat> {
    if u == n then MembersBelow(t.others + Leads(t, n), n + 2)
    else if u in Leads(t, n) then [t.last]
    else if u in t.others || u == t.last then [n + 2]
    else []
  }

  function DetourIn(t: Trap, n: nat, u: nat): seq<nat> {
    if u in t.others || u in Leads(t, n) then [n]
    else if u == t.last then MembersBelow(Leads(t, n), n + 2)
    else if u == n + 2 then MembersBelow(t.others + {t.last}, n)
    else []
  }

  ghost predicate DetourLink(t: Trap, n: nat, u: nat, x: nat) {
    || (u == n && (x in t.others || x in Leads(t, n)))
    || (u in Leads(t, n) && x == t.last)
    || ((u in t.others || u == t.last) && x == n + 2)
  }

  lemma DetourGraph(p: Problem, t: Trap)
    requires p.Valid() && IsTrap(p, t)
    ensures Detour(p, t).graph.Valid()
    ensures forall u: nat, x: nat :: Link(Detour(p, t).graph.conservative, u, x) <==> DetourLink(t, p.NodeCount(), u, x)
  {
    hide IsTrap, Problem.Valid, DetourOut, DetourIn, DetourLink, Below;
    var n := p.NodeCount();
    var g := Detour(p, t).graph;
    TrapBelow(p, t);
    forall u: nat, x: nat
      ensures x in DetourOut(t, n, u) <==> DetourLink(t, n, u, x)
      ensures x in DetourOut(t, n, u) ==> x < n + 3
    {
      OutExactly(t, n, u, x);
    }
    forall u: nat, x: nat
      ensures u in DetourIn(t, n, x) <==> DetourLink(t, n, u, x)
      ensures u in DetourIn(t, n, x) ==> u < n + 3
    {
      InExactly(t, n, u, x);
    }
    forall u: nat ensures Ascending(DetourOut(t, n, u)) { OutExactly(t, n, u, 0); }
    assert |g.conservative| == |g.conservativeIn| == |g.proven| == n + 3;
    forall u, x: nat | 0 <= u < n + 3 && (x in g.conservative[u] || x in g.conservativeIn[u]) ensures x < n + 3 {
      assert x in g.conservative[u] ==> x in DetourOut(t, n, u);
      assert x in g.conservativeIn[u] ==> x in DetourIn(t, n, u);
    }
    forall u, x | 0 <= u < n + 3 && 0 <= x < n + 3 ensures x in g.conservative[u] <==> u in g.conservativeIn[x] {
      assert x in DetourOut(t, n, u) <==> u in DetourIn(t, n, x);
    }
    forall u: nat, x: nat ensures Link(g.conservative, u, x) <==> DetourLink(t, n, u, x) {
      if u >= n + 3 { NoLink(t, n, u, x); }
    }
  }

  lemma NoLink(t: Trap, n: nat, u: nat, x: nat)
    requires Below(t, n) && u >= n + 3
    ensures !DetourLink(t, n, u, x)
  {
  }

  /** The members of a trap are nodes of the instance and pairwise different. */
  ghost predicate Below(t: Trap, n: nat) {
    && (forall v :: v in t.others ==> v < n) && t.light < n && t.heavy < n && t.last < n
    && t.others !! {t.light, t.heavy, t.last} && t.light < t.heavy && t.last != t.light && t.last != t.heavy
  }

  lemma TrapBelow(p: Problem, t: Trap)
    requires p.Valid() && IsTrap(p, t)
    ensures Below(t, p.NodeCount())
  {
    forall v | v in t.All() ensures v < p.NodeCount() { assert v in Marked(p.containable); }
    assert t.light in t.All() && t.heavy in t.All() && t.last in t.All();
  }

  lemma OutExactly(t: Trap, n: nat, u: nat, x: nat)
    requires Below(t, n)
    ensures x in DetourOut(t, n, u) <==> DetourLink(t, n, u, x)
    ensures Ascending(DetourOut(t, n, u)) && (x in DetourOut(t, n, u) ==> x < n + 3)
  {
    var s := MembersBelow(t.others + Leads(t, n), n + 2);
    assert x in s <==> x in Elements(s);
  }

  lemma InExactly(t: Trap, n: nat, u: nat, x: nat)
    requires Below(t, n)
    ensures u in DetourIn(t, n, x) <==> DetourLink(t, n, u, x)
    ensures u in DetourIn(t, n, x) ==> u < n + 3
  {
    var a, b := MembersBelow(Leads(t, n), n + 2), MembersBelow(t.others + {t.last}, n);
    assert u in a <==> u in Elements(a);
    assert u in b <==> u in Elements(b);
  }

  lemma DetourCarries(p: Problem, t: Trap)
    requires p.Valid() && IsTrap(p, t) && p.NodeCount() + 3 <= MAX_TOPOLOGY_NODES
    ensures Carries(p, Detour(p, t)) && Detour(p, t).Mandatory() == {}
  {
    var q, n := Detour(p, t), p.NodeCount();
    DetourGraph(p, t);
    hide Graph.Valid, IsTrap;
    forall i, j | 0 <= i < j < |q.ids| ensures IdLess(q.ids[i], q.ids[j]) { PrefixLess(q.ids[i], q.ids[j]); }
    assert Elements(q.sources) == {n} == Marked(q.isSource) by { assert q.sources[0] == n; }
    assert Elements(q.protectedNodes) == {n + 2} == Marked(q.isProtected) by { assert q.protectedNodes[0] == n + 2; }
  }

  /** The routes of the detour, as far as `removed` leaves them open. */
  ghost predicate Route(t: Trap, n: nat, removed: set<nat>, w: seq<nat>) {
    || (|w| == 3 && w[0] == n && w[1] in t.others && w[2] == n + 2 && removed !! {n, w[1], n + 2})
    || (|w| == 4 && w[0] == n && w[1] in Leads(t, n) && w[2] == t.last && w[3] == n + 2
        && removed !! {n, w[1], t.last, n + 2})
  }

  lemma DetourPaths(p: Problem, t: Trap, removed: set<nat>, w: seq<nat>)
    requires p.Valid() && IsTrap(p, t)
    ensures TargetWalk(Residual(Detour(p, t), removed), w) <==> Route(t, p.NodeCount(), removed, w)
  {
    var n, s := p.NodeCount(), Residual(Detour(p, t), removed);
    DetourGraph(p, t);
    TrapBelow(p, t);
    assert s.targets == {n + 2} by { assert Detour(p, t).isProtected[n + 2]; }
    assert s.sources == [n] && |s.succ| == n + 3;
    hide Detour, IsTrap, Link;
    if TargetWalk(s, w) { WalkIsRoute(t, n, s, w); }
    if Route(t, n, removed, w) { RouteIsWalk(t, n, s, w); }
  }

  lemma RouteIsWalk(t: Trap, n: nat, s: Search, w: seq<nat>)
    requires Below(t, n) && s.sources == [n] && s.targets == {n + 2} && |s.succ| == n + 3
    requires forall u: nat, x: nat :: Link(s.succ, u, x) <==> DetourLink(t, n, u, x)
    requires Route(t, n, s.removed, w)
    ensures TargetWalk(s, w)
  {
    hide Link;
    forall i | 0 < i < |w| ensures Link(s.succ, w[i - 1], w[i]) { assert i == 1 || i == 2 || i == 3; }
    assert s.sources[0] == n;
  }

  lemma WalkIsRoute(t: Trap, n: nat, s: Search, w: seq<nat>)
    requires Below(t, n) && s.sources == [n] && s.targets == {n + 2}
    requires forall u: nat, x: nat :: Link(s.succ, u, x) <==> DetourLink(t, n, u, x)
    requires TargetWalk(s, w)
    ensures Route(t, n, s.removed, w)
  {
    hide Link;
    assert w[0] == n;
    assert |w| > 1;
    WalkStep(s, w, 1);
    assert |w| > 2;
    WalkStep(s, w, 2);
    if w[1] in t.others {
      if |w| > 3 { WalkStep(s, w, 3); }
    } else {
      assert |w| > 3;
      WalkStep(s, w, 3);
      if |w| > 4 { WalkStep(s, w, 4); }
    }
  }

  /** Missing another node or `last` leaves a route open. */
  lemma OpenRoute(t: Trap, n: nat, c: set<nat>) returns (w: seq<nat>)
    requires Below(t, n) && c <= t.All() && !(t.others + {t.last} <= c)
    ensures Route(t, n, c, w)
  {
    assert forall v :: v in c ==> v < n;
    if t.last !in c {
      w := [n, n + 1, t.last, n + 2];
    } else {
      var v :| v in t.others && v !in c;
      w := [n, v, n + 2];
    }
  }

  lemma Cut(p: Problem, t: Trap, c: set<nat>)
    requires p.Valid() && IsTrap(p, t) && c <= t.All()
    ensures !HasResidualPath(Detour(p, t), c) <==> t.others + {t.last} <= c
  {
    hide Detour, IsTrap, Residual, TargetWalk, Problem.Valid, Below;
    var n, q := p.NodeCount(), Detour(p, t);
    TrapBelow(p, t);
    if !(t.others + {t.last} <= c) {
      var w := OpenRoute(t, n, c);
      DetourPaths(p, t, c, w);
    } else {
      forall w ensures !TargetWalk(Residual(q, c), w) { DetourPaths(p, t, c, w); }
    }
  }

  lemma DetourEligible(p: Problem, t: Trap, c: set<nat>)
    requires p.Valid() && IsTrap(p, t) && c <= t.All() && Carries(p, Detour(p, t))
    ensures AllEligible(Detour(p, t), c) && c <= Marked(p.containable) && forall v: nat :: !Detour(p, t).IsOverlap(v)
  {
    hide Graph.Valid;
    var q := Detour(p, t);
    TrapBelow(p, t);
    forall v | v in c ensures v < q.NodeCount() && q.IsEligible(v) { assert v in t.All(); assert v in Marked(p.containable); }
  }

  lemma DetourFeasible(p: Problem, t: Trap, c: set<nat>)
    requires p.Valid() && IsTrap(p, t) && c <= t.All() && Carries(p, Detour(p, t)) && Detour(p, t).Mandatory() == {}
    ensures Feasible(Detour(p, t), c)
       <==> t.others + {t.last} <= c && |c| <= p.maxMembers && Weight(p, c) <= p.maxTotalWeight
  {
    hide HasResidualPath, Connects, Graph.Valid, IsTrap, Detour, Problem.IsOverlap, AllEligible, Problem.Valid, Weight;
    var q := Detour(p, t);
    Cut(p, t, c);
    CarriesFacts(p, q);
    ConnectsExactly(q, c);
    DetourEligible(p, t, c);
    CarriedWeight(p, q, c);
  }

  // ---------------------------------------------------------------------
  // The run
  // ---------------------------------------------------------------------

  /** The list the greedy loop builds: the other nodes in ascending order, then the trap. */
  function Run(t: Trap, n: nat): seq<nat> { MembersBelow(t.others, n) + [t.light, t.heavy, t.last] }

  lemma FirstOther(p: Problem, t: Trap, removed: set<nat>, v: nat)
    requires p.Valid() && IsTrap(p, t) && removed <= t.others && v in t.others && v !in removed
    requires forall u :: u in t.others && u < v ==> u in removed
    ensures LeastTargetWalk(Residual(Detour(p, t), removed), [p.NodeCount(), v, p.NodeCount() + 2])
  {
    hide Detour, IsTrap, Route, TargetWalk, Residual, AtMost;
    var n, s := p.NodeCount(), Residual(Detour(p, t), removed);
    TrapBelow(p, t);
    DetourPaths(p, t, removed, [n, v, n + 2]);
    OtherRoute(t, n, removed, v);
    forall w | TargetWalk(s, w) ensures AtMost(s.sources, [n, v, n + 2], w) {
      DetourPaths(p, t, removed, w);
      OtherComesFirst(t, n, removed, v, s.sources, w);
    }
    OtherRouteDistinct(n, v);
  }

  lemma OtherRouteDistinct(n: nat, v: nat)
    requires v < n
    ensures Distinct([n, v, n + 2])
  {
  }

  lemma OtherRoute(t: Trap, n: nat, removed: set<nat>, v: nat)
    requires Below(t, n) && removed <= t.others && v in t.others && v !in removed
    ensures Route(t, n, removed, [n, v, n + 2]) && v < n
  {
  }

  lemma OtherComesFirst(t: Trap, n: nat, removed: set<nat>, v: nat, sources: seq<nat>, w: seq<nat>)
    requires Route(t, n, removed, w) && forall u :: u in t.others && u < v ==> u in removed
    ensures AtMost(sources, [n, v, n + 2], w)
  {
    var path := [n, v, n + 2];
    if |w| == 3 && w[1] == v {
      assert w == path;
    } else if |w| == 3 {
      assert DiffersFirstAt(sources, path, w, 1);
    }
  }

  lemma NextLead(p: Problem, t: Trap, removed: set<nat>, v: nat)
    requires p.Valid() && IsTrap(p, t) && t.others <= removed <= t.others + {t.light, t.heavy}
    requires v in Leads(t, p.NodeCount()) && v !in removed
    requires forall u :: u in Leads(t, p.NodeCount()) && u < v ==> u in removed
    ensures LeastTargetWalk(Residual(Detour(p, t), removed), [p.NodeCount(), v, t.last, p.NodeCount() + 2])
  {
    hide Detour, IsTrap, Route, TargetWalk, Residual, AtMost;
    var n, s := p.NodeCount(), Residual(Detour(p, t), removed);
    TrapBelow(p, t);
    DetourPaths(p, t, removed, [n, v, t.last, n + 2]);
    LeadRoute(t, n, removed, v);
    forall w | TargetWalk(s, w) ensures AtMost(s.sources, [n, v, t.last, n + 2], w) {
      DetourPaths(p, t, removed, w);
      LeadComesFirst(t, n, removed, v, s.sources, w);
    }
  }

  lemma LeadRoute(t: Trap, n: nat, removed: set<nat>, v: nat)
    requires Below(t, n) && removed <= t.others + {t.light, t.heavy} && v in Leads(t, n) && v !in removed
    ensures Route(t, n, removed, [n, v, t.last, n + 2]) && Distinct([n, v, t.last, n + 2])
  {
  }

  lemma LeadComesFirst(t: Trap, n: nat, removed: set<nat>, v: nat, sources: seq<nat>, w: seq<nat>)
    requires Route(t, n, removed, w) && t.others <= removed
    requires forall u :: u in Leads(t, n) && u < v ==> u in removed
    ensures AtMost(sources, [n, v, t.last, n + 2], w)
  {
    var path := [n, v, t.last, n + 2];
    assert |w| == 4;
    if w[1] == v {
      assert w == path;
    } else {
      assert DiffersFirstAt(sources, path, w, 1);
    }
  }

  lemma RunFacts(p: Problem, t: Trap)
    requires p.Valid() && IsTrap(p, t)
    ensures var n, run := p.NodeCount(), Run(t, p.NodeCount());
      && Distinct(run) && Elements(run) == t.All() && (forall i :: 0 <= i < |run| ==> run[i] < n && p.containable[run[i]])
  {
    var n := p.NodeCount();
    TrapBelow(p, t);
    forall v | v in t.All() ensures v < n && p.containable[v] { assert v in Marked(p.containable); }
    hide IsTrap, Problem.Valid;
    RunElements(t, n);
    forall i | 0 <= i < |Run(t, n)| ensures Run(t, n)[i] in t.All() { assert Run(t, n)[i] in Elements(Run(t, n)); }
  }

  lemma RunElements(t: Trap, n: nat)
    requires Below(t, n)
    ensures Distinct(Run(t, n)) && Elements(Run(t, n)) == t.All()
  {
    var first := MembersBelow(t.others, n);
    assert Elements(first) == t.others;
    assert forall i :: 0 <= i < |first| ==> first[i] in t.others;
    assert Run(t, n) == first + [t.light] + [t.heavy] + [t.last];
    assert Elements(Run(t, n)) == t.All() by {
      ElementsAppend(first, t.light);
      ElementsAppend(first + [t.light], t.heavy);
      ElementsAppend(first + [t.light] + [t.heavy], t.last);
    }
  }

  /** A pick among the route's nodes, of which only `v` and possibly `last` may be contained. */
  lemma PickIs(p: Problem, t: Trap, path: seq<nat>, v: nat)
    requires p.Valid() && IsTrap(p, t) && Carries(p, Detour(p, t)) && v in path && v < p.NodeCount() && p.containable[v]
    requires forall i :: 0 <= i < |path| ==> path[i] == v || path[i] in {t.last, p.NodeCount(), p.NodeCount() + 1, p.NodeCount() + 2}
    requires t.last in path && v != t.last ==> v == t.light || v == t.heavy
    ensures (forall i :: 0 <= i < |path| ==> path[i] < Detour(p, t).NodeCount()) && GreedyPick(Detour(p, t), path, v)
  {
    var q := Detour(p, t);
    TrapBelow(p, t);
    hide Detour;
    forall i | 0 <= i < |path| && path[i] < q.NodeCount() && q.containable[path[i]] && path[i] != v
      ensures Cheaper(q, v, path[i])
    {
      assert path[i] == t.last;
      CheaperByIndex(q, v, t.last);
    }
  }

  lemma StepFrom(q: Problem, before: seq<nat>, path: seq<nat>, v: nat)
    requires q.Valid() && LeastTargetWalk(Residual(q, Elements(before)), path)
    requires (forall i :: 0 <= i < |path| ==> path[i] < q.NodeCount()) && GreedyPick(q, path, v)
    ensures GreedyStep(q, before, v)
  {
  }

  lemma OtherPick(p: Problem, t: Trap, v: nat)
    requires p.Valid() && IsTrap(p, t) && Carries(p, Detour(p, t)) && v in t.others
    ensures var path := [p.NodeCount(), v, p.NodeCount() + 2];
      (forall i :: 0 <= i < |path| ==> path[i] < Detour(p, t).NodeCount()) && GreedyPick(Detour(p, t), path, v)
  {
    hide Carries, GreedyPick, Detour, Problem.Valid;
    var n := p.NodeCount();
    TrapBelow(p, t);
    assert v in t.All() && v in Marked(p.containable);
    var path := [n, v, n + 2];
    assert path[0] == n && path[1] == v && path[2] == n + 2;
    assert t.last !in path;
    PickIs(p, t, path, v);
  }

  lemma OtherStep(p: Problem, t: Trap, before: seq<nat>, v: nat)
    requires p.Valid() && IsTrap(p, t) && Carries(p, Detour(p, t))
    requires Elements(before) <= t.others && v in t.others && v !in Elements(before)
    requires forall u :: u in t.others && u < v ==> u in Elements(before)
    ensures GreedyStep(Detour(p, t), before, v)
  {
    hide LeastTargetWalk, GreedyPick, GreedyStep, Detour, Residual, Problem.Valid, IsTrap, Carries;
    CarriesFacts(p, Detour(p, t));
    FirstOther(p, t, Elements(before), v);
    OtherPick(p, t, v);
    StepFrom(Detour(p, t), before, [p.NodeCount(), v, p.NodeCount() + 2], v);
  }

  lemma LeadPick(p: Problem, t: Trap, v: nat, pick: nat)
    requires p.Valid() && IsTrap(p, t) && Carries(p, Detour(p, t)) && v in Leads(t, p.NodeCount())
    requires pick == if v == p.NodeCount() + 1 then t.last else v
    ensures var path := [p.NodeCount(), v, t.last, p.NodeCount() + 2];
      (forall i :: 0 <= i < |path| ==> path[i] < Detour(p, t).NodeCount()) && GreedyPick(Detour(p, t), path, pick)
  {
    hide Carries, GreedyPick, Detour, Problem.Valid;
    var n := p.NodeCount();
    TrapBelow(p, t);
    assert pick in t.All() && pick in Marked(p.containable);
    var path := [n, v, t.last, n + 2];
    assert path[0] == n && path[1] == v && path[2] == t.last && path[3] == n + 2;
    PickIs(p, t, path, pick);
  }

  lemma LeadStep(p: Problem, t: Trap, before: seq<nat>, v: nat, pick: nat)
    requires p.Valid() && IsTrap(p, t) && Carries(p, Detour(p, t))
    requires t.others <= Elements(before) <= t.others + {t.light, t.heavy}
    requires v in Leads(t, p.NodeCount()) && v !in Elements(before)
    requires forall u :: u in Leads(t, p.NodeCount()) && u < v ==> u in Elements(before)
    requires pick == if v == p.NodeCount() + 1 then t.last else v
    ensures GreedyStep(Detour(p, t), before, pick)
  {
    hide LeastTargetWalk, GreedyPick, GreedyStep, Detour, Residual, Problem.Valid, IsTrap, Carries;
    CarriesFacts(p, Detour(p, t));
    NextLead(p, t, Elements(before), v);
    LeadPick(p, t, v, pick);
    StepFrom(Detour(p, t), before, [p.NodeCount(), v, t.last, p.NodeCount() + 2], pick);
  }

  lemma RunOther(p: Problem, t: Trap, k: nat)
    requires p.Valid() && IsTrap(p, t) && Carries(p, Detour(p, t)) && k < |MembersBelow(t.others, p.NodeCount())|
    ensures var first := MembersBelow(t.others, p.NodeCount()); GreedyStep(Detour(p, t), first[..k], first[k])
  {
    hide IsTrap, GreedyStep, Detour, Problem.Valid, Carries, Below;
    var n := p.NodeCount();
    var first := MembersBelow(t.others, n);
    TrapBelow(p, t);
    OthersListed(t, n);
    forall u | u in t.others && u < first[k] ensures u in Elements(first[..k]) {
      assert u in Elements(first);
      var j :| 0 <= j < |first| && first[j] == u;
      assert first[..k][j] == u;
    }
    forall u | u in Elements(first[..k]) ensures u in t.others && u < first[k] {}
    assert first[k] in Elements(first);
    OtherStep(p, t, first[..k], first[k]);
  }

  lemma OthersListed(t: Trap, n: nat)
    requires Below(t, n)
    ensures Elements(MembersBelow(t.others, n)) == t.others
  {
  }

  lemma RunLead(p: Problem, t: Trap, before: seq<nat>, v: nat, pick: nat)
    requires p.Valid() && IsTrap(p, t) && Carries(p, Detour(p, t))
    requires v in Leads(t, p.NodeCount()) && pick == if v == p.NodeCount() + 1 then t.last else v
    requires before == MembersBelow(t.others, p.NodeCount())
      + if v == t.light then [] else if v == t.heavy then [t.light] else [t.light, t.heavy]
    ensures GreedyStep(Detour(p, t), before, pick)
  {
    hide IsTrap, GreedyStep, Detour, Problem.Valid, Carries;
    var first := MembersBelow(t.others, p.NodeCount());
    TrapBelow(p, t);
    OthersListed(t, p.NodeCount());
    if v == t.light {
      assert before == first;
    } else if v == t.heavy {
      ElementsAppend(first, t.light);
    } else {
      assert before == first + [t.light] + [t.heavy];
      ElementsAppend(first, t.light);
      ElementsAppend(first + [t.light], t.heavy);
    }
    LeadStep(p, t, before, v, pick);
  }

  lemma RunStep(p: Problem, t: Trap, k: nat)
    requires p.Valid() && IsTrap(p, t) && Carries(p, Detour(p, t)) && k < |Run(t, p.NodeCount())|
    ensures GreedyStep(Detour(p, t), Run(t, p.NodeCount())[..k], Run(t, p.NodeCount())[k])
  {
    hide IsTrap, GreedyStep, Detour, Problem.Valid, Carries;
    var n := p.NodeCount();
    var first, run := MembersBelow(t.others, n), Run(t, n);
    TrapBelow(p, t);
    var m := |first|;
    if k < m {
      assert run[..k] == first[..k] && run[k] == first[k];
      RunOther(p, t, k);
    } else if k == m {
      assert run[..k] == first + [];
      RunLead(p, t, run[..k], t.light, t.light);
    } else if k == m + 1 {
      assert run[..k] == first + [t.light];
      RunLead(p, t, run[..k], t.heavy, t.heavy);
    } else {
      assert run[..k] == first + [t.light, t.heavy];
      RunLead(p, t, run[..k], n + 1, t.last);
    }
  }

  lemma RunIsGreedy(p: Problem, t: Trap)
    requires p.Valid() && IsTrap(p, t) && Carries(p, Detour(p, t)) && Detour(p, t).Mandatory() == {}
    ensures GreedyList(Detour(p, t), Run(t, p.NodeCount()), 0)
  {
    hide IsTrap, GreedyStep, Problem.Valid, Run;
    RunFacts(p, t);
    var run := Run(t, p.NodeCount());
    assert run[..0] == [];
    NoElements(run[..0]);
    forall k | 0 <= k < |run| ensures GreedyStep(Detour(p, t), run[..k], run[k]) { RunStep(p, t, k); }
  }

  lemma {:induction false} RefusedThrough(p: Problem, members: seq<nat>, i: nat, k: nat)
    requires p.Valid() && Ascending(members) && Indexed(p, members) && i <= k <= |members|
    requires forall j :: i <= j < k ==> !Feasible(p, Elements(members) - {members[j]})
    ensures ReverseDeletion(p, members, i) == ReverseDeletion(p, members, k)
    decreases k - i
  {
    hide Feasible, Problem.Valid, ReverseDeletion;
    if i < k {
      Turn(p, members, i);
      RefusedThrough(p, members, i + 1, k);
    }
  }

  lemma AllBelow(p: Problem, t: Trap, v: nat)
    requires p.Valid() && IsTrap(p, t) && v in t.All()
    ensures v < p.NodeCount() == |p.weights|
  {
    assert v in Marked(p.containable);
  }

  /** Which single deletions the verifier accepts: only that of `heavy` as long as `light` is there. */
  lemma FirstDeletion(p: Problem, t: Trap, v: nat)
    requires p.Valid() && IsTrap(p, t) && Carries(p, Detour(p, t)) && Detour(p, t).Mandatory() == {} && v in t.All()
    ensures Feasible(Detour(p, t), t.All() - {v}) <==> v == t.heavy
  {
    hide Feasible, Detour, Problem.Valid, Carries;
    var all := t.All();
    TrapBelow(p, t);
    AllBelow(p, t, v);
    DetourFeasible(p, t, all - {v});
    SumRemove(p.weights, all, v);
    if v != t.light && v != t.heavy { assert v in t.others + {t.last}; }
  }

  /** After that `light` could go as well. */
  lemma SecondDeletion(p: Problem, t: Trap, v: nat)
    requires p.Valid() && IsTrap(p, t) && Carries(p, Detour(p, t)) && Detour(p, t).Mandatory() == {} && v in t.All()
    ensures Feasible(Detour(p, t), t.All() - {t.heavy} - {v}) <==> v == t.light || v == t.heavy
  {
    hide Feasible, Detour, Problem.Valid, Carries;
    var rest := t.All() - {t.heavy};
    TrapBelow(p, t);
    AllBelow(p, t, t.heavy);
    DetourFeasible(p, t, rest - {v});
    SumRemove(p.weights, t.All(), t.heavy);
    SumMonotone(p.weights, rest - {v}, rest);
    SubsetCount(rest - {v}, rest);
    if v != t.light && v != t.heavy { assert v in t.others + {t.last}; }
  }

  lemma Deletions(p: Problem, t: Trap, v: nat)
    requires p.Valid() && IsTrap(p, t) && Carries(p, Detour(p, t)) && Detour(p, t).Mandatory() == {} && v in t.All()
    ensures Feasible(Detour(p, t), t.All() - {v}) <==> v == t.heavy
    ensures Feasible(Detour(p, t), t.All() - {t.heavy} - {v}) <==> v == t.light || v == t.heavy
  {
    hide Feasible, Detour, Problem.Valid, Carries, IsTrap;
    FirstDeletion(p, t, v);
    SecondDeletion(p, t, v);
  }

  /** The pass gives up `heavy` and nothing else. */
  lemma RunRestored(p: Problem, t: Trap, members: seq<nat>)
    requires p.Valid() && IsTrap(p, t) && Carries(p, Detour(p, t)) && Detour(p, t).Mandatory() == {}
    requires Ascending(members) && Elements(members) == t.All() && Indexed(Detour(p, t), members)
    ensures Elements(ReverseDeletion(Detour(p, t), members, 0)) == t.All() - {t.heavy}
  {
    hide Feasible, Problem.Valid, ReverseDeletion, IsTrap, Detour;
    var q := Detour(p, t);
    assert t.heavy in Elements(members);
    var k :| 0 <= k < |members| && members[k] == t.heavy;
    forall j | 0 <= j < k ensures !Feasible(q, Elements(members) - {members[j]}) {
      assert members[j] in Elements(members);
      Deletions(p, t, members[j]);
    }
    RefusedThrough(q, members, 0, k);
    Deletions(p, t, t.heavy);
    Turn(q, members, k);
    var rest := WithoutIndex(members, k);
    forall j | k <= j < |rest| ensures !Feasible(q, Elements(rest) - {rest[j]}) {
      assert rest[j] == members[j + 1] && members[j + 1] in Elements(members);
      TrapBelow(p, t);
      Deletions(p, t, rest[j]);
      if rest[j] == t.light {}
    }
    RefusedThrough(q, rest, k, |rest|);
    RunEnds(q, rest);
  }

  lemma RunEnds(q: Problem, members: seq<nat>)
    requires q.Valid() && Indexed(q, members)
    ensures ReverseDeletion(q, members, |members|) == members
  {
  }

  lemma RunKept(p: Problem, t: Trap)
    requires p.Valid() && IsTrap(p, t) && Carries(p, Detour(p, t)) && Detour(p, t).Mandatory() == {}
    ensures Feasible(Detour(p, t), t.All() - {t.heavy}) && Feasible(Detour(p, t), t.All() - {t.heavy} - {t.light})
    ensures t.All() - {t.heavy} - {t.light} < t.All() - {t.heavy}
    ensures !Feasible(Detour(p, t), t.All()) && !HasResidualPath(Detour(p, t), t.All())
  {
    hide IsTrap, Feasible, Detour, HasResidualPath, Problem.Valid, Carries;
    Deletions(p, t, t.heavy);
    Deletions(p, t, t.light);
    Cut(p, t, t.All());
    WholeTooHeavy(p, t);
    DetourFeasible(p, t, t.All());
    TrapBelow(p, t);
    assert t.light in t.All() - {t.heavy};
  }

  /** The pass from whatever list a completed run has built ends in a set that is not minimal. */
  lemma DetourDeletion(p: Problem, t: Trap, greedy: seq<nat>, start: nat)
    requires p.Valid() && IsTrap(p, t) && Carries(p, Detour(p, t)) && Detour(p, t).Mandatory() == {}
    requires GreedyList(Detour(p, t), greedy, start) && !HasResidualPath(Detour(p, t), Elements(greedy))
    ensures Distinct(greedy) && Indexed(Detour(p, t), greedy) && Indexed(Detour(p, t), Sorted(greedy))
    ensures var r := Elements(ReverseDeletion(Detour(p, t), Sorted(greedy), 0));
      Feasible(Detour(p, t), r) && !InclusionMinimal(Detour(p, t), r)
  {
    hide Problem.Valid, ReverseDeletion, IsTrap, Detour, GreedyList, Carries, Run, Feasible, HasResidualPath;
    var q, run := Detour(p, t), Run(t, p.NodeCount());
    CarriesFacts(p, q);
    RunFacts(p, t);
    RunIsGreedy(p, t);
    RunKept(p, t);
    GreedyDetermined(q, greedy, start, run, 0);
    GreedyDistinct(q, greedy, start);
    SortedIndexed(q, greedy);
    RunSorted(greedy);
    RunRestored(p, t, Sorted(greedy));
  }

  /** On the detour every answer the budget allows to complete is a feasible set that is not minimal. */
  lemma DetourAnswer(p: Problem, t: Trap, m: nat, s: CutSolution)
    requires p.Valid() && IsTrap(p, t) && p.NodeCount() + 3 <= MAX_TOPOLOGY_NODES
    requires Detour(p, t).Valid() && Answers(Detour(p, t), m, s) && !s.budgetExhausted
    ensures s.status.FeasibleNotProvenOptimal? && !InclusionMinimal(Detour(p, t), Elements(s.members))
  {
    DetourCarries(p, t);
    hide Problem.Valid, ReverseDeletion, IsTrap, Detour, GreedyList, Carries, Feasible, HasResidualPath, InclusionMinimal;
    var q := Detour(p, t);
    RunKept(p, t);
    var greedy, start :| GreedyList(q, greedy, start) && HeuristicOk(q, m, s, greedy);
    if !s.status.ProvenInfeasible? { DetourDeletion(p, t, greedy, start); }
  }

  /** The answer of the run, with the number of rounds it takes. */
  lemma DetourRun(p: Problem, t: Trap) returns (m: nat, s: CutSolution)
    requires p.Valid() && IsTrap(p, t) && p.NodeCount() + 3 <= MAX_TOPOLOGY_NODES
    ensures Carries(p, Detour(p, t)) && m == Detour(p, t).NodeCount() + 1
    ensures Answers(Detour(p, t), m, s) && !s.budgetExhausted
  {
    DetourCarries(p, t);
    hide Problem.Valid, ReverseDeletion, IsTrap, Detour, GreedyList, Carries, Run, Feasible, HasResidualPath, HeuristicOk,
      InclusionMinimal;
    var q, run := Detour(p, t), Run(t, p.NodeCount());
    m := q.NodeCount() + 1;
    CarriesFacts(p, q);
    RunFacts(p, t);
    RunIsGreedy(p, t);
    RunKept(p, t);
    DetourDeletion(p, t, run, 0);
    CountBounded(run, p.NodeCount());
    var members := ReverseDeletion(q, Sorted(run), 0);
    s := CutSolution(FeasibleNotProvenOptimal, members, Some(ObjectiveOf(q, Elements(members))), None, |run| + 1, false);
    RestoredAnswer(q, m, run, members, s);
  }

  lemma RunSorted(run: seq<nat>)
    requires Distinct(run)
    ensures Ascending(Sorted(run)) && Elements(Sorted(run)) == Elements(run)
  {
    DistinctSorted(run);
  }

  lemma WholeTooHeavy(p: Problem, t: Trap)
    requires p.Valid() && IsTrap(p, t)
    ensures Weight(p, t.All()) > p.maxTotalWeight
  {
  }

  lemma CarriesFacts(p: Problem, q: Problem)
    requires p.Valid() && Carries(p, q)
    ensures q.Valid() && p.NodeCount() <= q.NodeCount()
  {
  }

  lemma SortedIndexed(q: Problem, run: seq<nat>)
    requires Distinct(run) && Indexed(q, run)
    ensures Indexed(q, Sorted(run)) && Elements(Sorted(run)) == Elements(run)
  {
    SortedInRange(q, run);
  }

  /** Every answer within a budget that always suffices is feasible and not minimal. */
  ghost predicate NeverMinimal(q: Problem)
    requires q.Valid()
  {
    forall m: nat, s :: m > q.NodeCount() && Answers(q, m, s) ==>
      s.status.FeasibleNotProvenOptimal? && !InclusionMinimal(q, Elements(s.members))
  }

  lemma DetourNeverMinimal(p: Problem, t: Trap)
    requires p.Valid() && IsTrap(p, t) && p.NodeCount() + 3 <= MAX_TOPOLOGY_NODES
    ensures Carries(p, Detour(p, t)) && NeverMinimal(Detour(p, t))
  {
    DetourCarries(p, t);
    hide Problem.Valid, IsTrap, Detour, Carries, InclusionMinimal, GreedyList;
    CarriesFacts(p, Detour(p, t));
    forall m: nat, s | m > Detour(p, t).NodeCount() && Answers(Detour(p, t), m, s)
      ensures s.status.FeasibleNotProvenOptimal? && !InclusionMinimal(Detour(p, t), Elements(s.members))
    {
      DetourAnswer(p, t, m, s);
    }
  }

  /** Whatever the graph and the roles, every feasible answer is inclusion-minimal if and only if the containable
      nodes hold no trap for the bounds. With a trap there is a graph on which no sufficient budget helps. */
  lemma MinimalAnswersExact(p: Problem)
    requires p.Valid() && p.NodeCount() + 3 <= MAX_TOPOLOGY_NODES
    ensures !HasTrap(p) <==>
      forall q: Problem, m: nat, s ::
        Carries(p, q) && Answers(q, m, s) && s.status.FeasibleNotProvenOptimal? ==> InclusionMinimal(q, Elements(s.members))
    ensures HasTrap(p) ==> exists q: Problem :: Carries(p, q) && NeverMinimal(q)
  {
    hide Answers, InclusionMinimal, IsTrap, Detour, NeverMinimal, Problem.Valid;
    if HasTrap(p) {
      var t :| IsTrap(p, t);
      DetourNeverMinimal(p, t);
      var m, s := DetourRun(p, t);
      CarriesFacts(p, Detour(p, t));
      DetourAnswer(p, t, m, s);
    } else {
      forall q: Problem, m: nat, s | Carries(p, q) && Answers(q, m, s) && s.status.FeasibleNotProvenOptimal?
        ensures InclusionMinimal(q, Elements(s.members))
      {
        NoTrapMinimal(p, q, m, s);
      }
    }
  }

  lemma NoTrapMinimal(p: Problem, q: Problem, m: nat, s: CutSolution)
    requires p.Valid() && !HasTrap(p) && Carries(p, q) && Answers(q, m, s) && s.status.FeasibleNotProvenOptimal?
    ensures InclusionMinimal(q, Elements(s.members))
  {
    hide InclusionMinimal, HasTrap, Problem.Valid, GreedyList, Feasible;
    if !InclusionMinimal(q, Elements(s.members)) {
      var greedy, start :| GreedyList(q, greedy, start) && HeuristicOk(q, m, s, greedy);
      NotMinimalTraps(q, greedy, start);
      CarriedTrap(p, q);
    }
  }
}
