/** Completions of a search node and the disjoint-path lower bound on their weight. */
module SearchBounds {
  import opened Collections
  import opened BreadthFirst
  import opened Containment
  import opened ResidualPaths
  import opened CutVerifier

  /** The feasible sets a search node stands for: they hold `included` and miss `excluded`. */
  ghost predicate Completion(p: Problem, included: set<nat>, excluded: set<nat>, c: set<nat>)
    requires p.Valid()
  {
    Feasible(p, c) && included <= c && c !! excluded
  }

  ghost predicate Uncompletable(p: Problem, included: set<nat>, excluded: set<nat>)
    requires p.Valid()
  {
    forall c :: !Completion(p, included, excluded, c)
  }

  /** Nodes of a path that a completion may still take. */
  predicate IsOpen(p: Problem, excluded: set<nat>, v: nat) {
    v < |p.containable| && p.containable[v] && v !in excluded
  }

  function OpenOn(p: Problem, excluded: set<nat>, q: seq<nat>): set<nat> {
    set v | v in q && IsOpen(p, excluded, v)
  }

  /** Every completion takes an open node of every path around the included nodes. */
  lemma CompletionHitsPath(p: Problem, included: set<nat>, excluded: set<nat>, removed: set<nat>, q: seq<nat>, c: set<nat>)
    requires p.Valid() && Completion(p, included, excluded, c)
    requires TargetWalk(Residual(p, removed), q)
    ensures OpenOn(p, excluded, q) * c != {}
  {
    FeasibleHitsPath(p, c, removed, q);
    var i :| 0 <= i < |q| && q[i] in c;
    assert p.IsEligible(q[i]);
    assert q[i] in OpenOn(p, excluded, q) * c;
  }

  // ---------------------------------------------------------------------
  // Path packings
  // ---------------------------------------------------------------------

  /** Open nodes consumed by the paths collected so far. */
  function Consumed(p: Problem, excluded: set<nat>, paths: seq<seq<nat>>): set<nat> {
    if paths == [] then {}
    else Consumed(p, excluded, paths[..|paths| - 1]) + OpenOn(p, excluded, paths[|paths| - 1])
  }

  /** Residual paths, each around the included nodes and around every open node used before it. */
  ghost predicate Packing(p: Problem, included: set<nat>, excluded: set<nat>, paths: seq<seq<nat>>) {
    paths == [] ||
    (var rest, q := paths[..|paths| - 1], paths[|paths| - 1];
     && Packing(p, included, excluded, rest)
     && TargetWalk(Residual(p, included + Consumed(p, excluded, rest)), q)
     && OpenOn(p, excluded, q) != {})
  }

  /** The least weight of an open node on the path; the largest word when there is none. */
  function CheapestOn(p: Problem, excluded: set<nat>, q: seq<nat>): nat
    requires p.NodeCount() <= |p.weights|
  {
    if q == [] then MAX_U64
    else
      var rest, v := CheapestOn(p, excluded, q[..|q| - 1]), q[|q| - 1];
      if IsOpen(p, excluded, v) && p.weights[v] < rest then p.weights[v] else rest
  }

  function PackingWeight(p: Problem, excluded: set<nat>, paths: seq<seq<nat>>): nat
    requires p.NodeCount() <= |p.weights|
  {
    if paths == [] then 0
    else PackingWeight(p, excluded, paths[..|paths| - 1]) + CheapestOn(p, excluded, paths[|paths| - 1])
  }

  /** The cheapest weight is attained and is a lower bound. */
  lemma {:induction false} CheapestIsLeast(p: Problem, excluded: set<nat>, q: seq<nat>)
    requires p.Valid()
    ensures forall v :: v in OpenOn(p, excluded, q) ==> CheapestOn(p, excluded, q) <= p.weights[v]
    ensures OpenOn(p, excluded, q) != {} ==>
      exists v :: v in OpenOn(p, excluded, q) && CheapestOn(p, excluded, q) == p.weights[v]
    ensures OpenOn(p, excluded, q) == {} ==> CheapestOn(p, excluded, q) == MAX_U64
  {
    if q != [] {
      var rest, v := q[..|q| - 1], q[|q| - 1];
      CheapestIsLeast(p, excluded, rest);
      OpenAppend(p, excluded, rest, v);
      assert q == rest + [v];
    }
  }

  lemma OpenAppend(p: Problem, excluded: set<nat>, q: seq<nat>, v: nat)
    ensures OpenOn(p, excluded, q + [v]) == OpenOn(p, excluded, q) + if IsOpen(p, excluded, v) then {v} else {}
  {
    assert forall x :: x in q + [v] <==> x in q || x == v;
  }

  lemma {:induction false} ConsumedIsOpen(p: Problem, excluded: set<nat>, paths: seq<seq<nat>>)
    ensures forall v :: v in Consumed(p, excluded, paths) ==> IsOpen(p, excluded, v)
  {
    if paths != [] { ConsumedIsOpen(p, excluded, paths[..|paths| - 1]); }
  }

  /** Consumed nodes are new at every path, so a completion pays for every path separately. */
  lemma {:induction false} PackingPaid(p: Problem, included: set<nat>, excluded: set<nat>, paths: seq<seq<nat>>, c: set<nat>)
    requires p.Valid() && Packing(p, included, excluded, paths) && Completion(p, included, excluded, c)
    ensures included !! Consumed(p, excluded, paths)
    ensures PackingWeight(p, excluded, paths) <= Weight(p, c * Consumed(p, excluded, paths))
  {
    if paths != [] {
      var rest, q := paths[..|paths| - 1], paths[|paths| - 1];
      PackingPaid(p, included, excluded, rest, c);
      LastPathPaid(p, included, excluded, rest, q, c);
    } else {
      SumEmpty(p.weights);
      assert c * {} == {};
    }
  }

  lemma LastPathPaid(p: Problem, included: set<nat>, excluded: set<nat>, rest: seq<seq<nat>>, q: seq<nat>, c: set<nat>)
    requires p.Valid() && Completion(p, included, excluded, c)
    requires TargetWalk(Residual(p, included + Consumed(p, excluded, rest)), q)
    requires included !! Consumed(p, excluded, rest)
    ensures included !! Consumed(p, excluded, rest) + OpenOn(p, excluded, q)
    ensures Weight(p, c * Consumed(p, excluded, rest)) + CheapestOn(p, excluded, q)
         <= Weight(p, c * (Consumed(p, excluded, rest) + OpenOn(p, excluded, q)))
  {
    var before, open := Consumed(p, excluded, rest), OpenOn(p, excluded, q);
    CompletionHitsPath(p, included, excluded, included + before, q, c);
    var v :| v in open * c;
    CheapestIsLeast(p, excluded, q);
    assert open !! included + before;
    SumAdd(p.weights, c * before, v);
    SumMonotone(p.weights, c * before + {v}, c * (before + open));
  }

  /** Soundness of the bound: no completion weighs less than the included nodes plus the packing. */
  lemma PackingBounds(p: Problem, included: set<nat>, excluded: set<nat>, paths: seq<seq<nat>>, c: set<nat>)
    requires p.Valid() && Packing(p, included, excluded, paths) && Completion(p, included, excluded, c)
    ensures Weight(p, included) + PackingWeight(p, excluded, paths) <= Weight(p, c)
  {
    PackingPaid(p, included, excluded, paths, c);
    var taken := c * Consumed(p, excluded, paths);
    SumDisjoint(p.weights, included, taken);
    SumMonotone(p.weights, included + taken, c);
  }

  /** The packing's weight is itself a weight of distinct nodes, so adding it up cannot overflow. */
  lemma {:induction false} PackingFits(p: Problem, included: set<nat>, excluded: set<nat>, paths: seq<seq<nat>>)
    requires p.Valid() && Packing(p, included, excluded, paths)
    ensures PackingWeight(p, excluded, paths) <= Weight(p, Consumed(p, excluded, paths))
    ensures PackingWeight(p, excluded, paths) <= MAX_TOPOLOGY_NODES * MAX_NODE_WEIGHT < MAX_U64
  {
    if paths != [] {
      var rest, q := paths[..|paths| - 1], paths[|paths| - 1];
      PackingFits(p, included, excluded, rest);
      CheapestIsLeast(p, excluded, q);
      var v :| v in OpenOn(p, excluded, q) && CheapestOn(p, excluded, q) == p.weights[v];
      var before := Consumed(p, excluded, rest);
      SumAdd(p.weights, before, v);
      SumMonotone(p.weights, before + {v}, Consumed(p, excluded, paths));
    }
    WeightFits(p, Consumed(p, excluded, paths));
  }

  /** Collects vertex-disjoint residual paths, at most `cap` of them, and adds up what each must cost.
      Reports a path without an open node when it meets one. */
  method DisjointPathBound(p: Problem, included: seq<bool>, excluded: seq<bool>, cap: nat)
    returns (completable: bool, bound: nat, barrier: seq<nat>, checked: nat, ghost paths: seq<seq<nat>>)
    requires p.Valid() && |included| == |excluded| == p.NodeCount()
    ensures Packing(p, Marked(included), Marked(excluded), paths) && |paths| <= checked <= cap
    ensures bound == PackingWeight(p, Marked(excluded), paths)
    ensures !completable ==>
      && TargetWalk(Residual(p, Marked(included)), barrier) && OpenOn(p, Marked(excluded), barrier) == {}
      && Uncompletable(p, Marked(included), Marked(excluded))
    ensures completable ==>
      |paths| == cap || !HasResidualPath(p, Marked(included) + Consumed(p, Marked(excluded), paths))
  {
    assert |p.weights| == p.NodeCount();
    hide Packing, Consumed, PackingWeight, CheapestOn, OpenOn, HasResidualPath, LeastTargetWalk, Marked, Problem.Valid;
    ghost var taken, out := Marked(included), Marked(excluded);
    var blocked := included;
    paths, bound, barrier, checked := [], 0, [], 0;
    PackingBegins(p, taken, out);
    assert taken + Consumed(p, out, paths) == taken;
    while checked < cap
      invariant checked <= cap && |paths| == checked && |blocked| == p.NodeCount()
      invariant Packing(p, taken, out, paths) && Marked(blocked) == taken + Consumed(p, out, paths)
      invariant bound == PackingWeight(p, out, paths)
    {
      checked := checked + 1;
      var path := ShortestResidualPath(p, blocked);
      if path == [] {
        completable := true;
        return;
      }
      PathInRange(p, taken + Consumed(p, out, paths), path);
      var found, cheapest := CheapestOpen(p, excluded, path);
      if !found {
        NoOpenNode(p, taken, out, Consumed(p, out, paths), path);
        completable, barrier := false, path;
        return;
      }
      bound := bound + cheapest;
      blocked := BlockOpen(p, excluded, blocked, path);
      PackingGrown(p, taken, out, paths, path);
      paths := paths + [path];
    }
    completable := true;
  }

  lemma PackingBegins(p: Problem, included: set<nat>, excluded: set<nat>)
    requires p.Valid()
    ensures Packing(p, included, excluded, []) && Consumed(p, excluded, []) == {} && PackingWeight(p, excluded, []) == 0
  {
  }

  lemma PathInRange(p: Problem, removed: set<nat>, path: seq<nat>)
    requires p.Valid() && LeastTargetWalk(Residual(p, removed), path)
    ensures TargetWalk(Residual(p, removed), path) && forall i :: 0 <= i < |path| ==> path[i] < p.NodeCount()
  {
  }

  lemma PackingGrown(p: Problem, included: set<nat>, excluded: set<nat>, paths: seq<seq<nat>>, q: seq<nat>)
    requires p.Valid() && Packing(p, included, excluded, paths)
    requires TargetWalk(Residual(p, included + Consumed(p, excluded, paths)), q) && OpenOn(p, excluded, q) != {}
    ensures Packing(p, included, excluded, paths + [q])
    ensures Consumed(p, excluded, paths + [q]) == Consumed(p, excluded, paths) + OpenOn(p, excluded, q)
    ensures PackingWeight(p, excluded, paths + [q]) == PackingWeight(p, excluded, paths) + CheapestOn(p, excluded, q)
  {
    var all := paths + [q];
    assert all[..|all| - 1] == paths && all[|all| - 1] == q;
  }

  lemma NoOpenNode(p: Problem, included: set<nat>, excluded: set<nat>, consumed: set<nat>, q: seq<nat>)
    requires p.Valid() && TargetWalk(Residual(p, included + consumed), q) && OpenOn(p, excluded, q) == {}
    ensures TargetWalk(Residual(p, included), q) && Uncompletable(p, included, excluded)
  {
    forall c ensures !Completion(p, included, excluded, c) {
      if Completion(p, included, excluded, c) {
        CompletionHitsPath(p, included, excluded, included + consumed, q, c);
      }
    }
  }

  /** The cheapest open node of the path; ties go to the smaller index. */
  method CheapestOpen(p: Problem, excluded: seq<bool>, path: seq<nat>) returns (found: bool, weight: nat)
    requires p.Valid() && |excluded| == p.NodeCount() && forall i :: 0 <= i < |path| ==> path[i] < p.NodeCount()
    ensures found <==> OpenOn(p, Marked(excluded), path) != {}
    ensures weight == CheapestOn(p, Marked(excluded), path)
  {
    var cheapest: nat := INVALID_NODE;
    weight := MAX_U64;
    for i := 0 to |path|
      invariant cheapest == INVALID_NODE <==> OpenOn(p, Marked(excluded), path[..i]) == {}
      invariant weight == CheapestOn(p, Marked(excluded), path[..i])
      invariant cheapest != INVALID_NODE ==> cheapest < |p.weights| && weight == p.weights[cheapest]
    {
      var node := path[i];
      assert path[..i + 1] == path[..i] + [node];
      OpenAppend(p, Marked(excluded), path[..i], node);
      assert IsOpen(p, Marked(excluded), node) <==> p.containable[node] && !excluded[node];
      CheapestIsLeast(p, Marked(excluded), path[..i]);
      if p.containable[node] && !excluded[node] {
        if p.weights[node] < weight || (p.weights[node] == weight && cheapest != INVALID_NODE && node < cheapest) {
          cheapest, weight := node, p.weights[node];
        }
      }
    }
    assert path[..|path|] == path;
    found := cheapest != INVALID_NODE;
  }

  method BlockOpen(p: Problem, excluded: seq<bool>, before: seq<bool>, path: seq<nat>) returns (blocked: seq<bool>)
    requires p.Valid() && |excluded| == |before| == p.NodeCount() && forall i :: 0 <= i < |path| ==> path[i] < p.NodeCount()
    ensures |blocked| == p.NodeCount() && Marked(blocked) == Marked(before) + OpenOn(p, Marked(excluded), path)
  {
    blocked := before;
    for i := 0 to |path|
      invariant |blocked| == p.NodeCount() && Marked(blocked) == Marked(before) + OpenOn(p, Marked(excluded), path[..i])
    {
      var node := path[i];
      assert path[..i + 1] == path[..i] + [node];
      OpenAppend(p, Marked(excluded), path[..i], node);
      assert IsOpen(p, Marked(excluded), node) <==> p.containable[node] && !excluded[node];
      if p.containable[node] && !excluded[node] {
        MarkedUpdate(blocked, node, true);
        blocked := blocked[node := true];
      }
    }
    assert path[..|path|] == path;
  }
}
