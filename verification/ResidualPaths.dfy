/** Residual paths of a containment problem: the canonical shortest path the solvers branch on,
    the plain reachability check of the verifier, and when the two agree. */
module ResidualPaths {
  import opened Collections
  import opened BreadthFirst
  import opened Containment

  /** What the path search looks for: an obligation that is not itself a source. */
  function Residual(p: Problem, removed: set<nat>): Search {
    Search(p.graph.conservative, p.sources, removed, Marked(p.isProtected) - Elements(p.sources))
  }

  ghost predicate HasResidualPath(p: Problem, removed: set<nat>) {
    exists q :: TargetWalk(Residual(p, removed), q)
  }

  /** The facts about a residual search that the code relies on. */
  lemma ResidualShape(p: Problem, blocked: seq<bool>)
    requires p.Valid() && |blocked| == p.NodeCount()
    ensures var s := Residual(p, Marked(blocked));
      && WellFormed(s) && |s.succ| == p.NodeCount() < INVALID_NODE
      && (forall v :: v in p.sources ==> v < p.NodeCount() && p.isSource[v])
      && (forall v :: 0 <= v < p.NodeCount() && p.isSource[v] ==> v in p.sources)
      && (forall v :: 0 <= v < p.NodeCount() ==> (v in s.removed <==> blocked[v]))
      && (forall v :: 0 <= v < p.NodeCount() && v !in p.sources ==> (v in s.targets <==> p.isProtected[v]))
  {
    assert forall v :: v in p.sources <==> v in Elements(p.sources);
    assert forall v: nat :: v < p.NodeCount() && p.isSource[v] ==> v in Marked(p.isSource);
  }

  // ---------------------------------------------------------------------
  // The search
  // ---------------------------------------------------------------------

  /** The arrays of the search, read as a tree. */
  ghost predicate Mirrors(tree: Tree, seen: seq<bool>, parent: seq<nat>) {
    && |seen| == |parent|
    && (forall v :: v in tree ==> v < |seen|)
    && (forall v :: 0 <= v < |seen| ==> (seen[v] <==> v in tree))
    && (forall v :: v in tree && v < |seen| ==> ParentMatches(tree[v], parent[v]))
  }

  ghost predicate ParentMatches(q: seq<nat>, parent: nat) {
    if |q| <= 1 then parent == INVALID_NODE else parent == Parent(q)
  }

  lemma MirrorsGrown(tree: Tree, seen: seq<bool>, parent: seq<nat>, x: nat, q: seq<nat>, u: nat)
    requires Mirrors(tree, seen, parent) && x < |seen| && x !in tree
    requires ParentMatches(q, u)
    ensures Mirrors(tree[x := q], seen[x := true], parent[x := u])
  {
  }

  /** Least residual path around the blocked nodes; empty when there is none. */
  method ShortestResidualPath(p: Problem, blocked: seq<bool>) returns (path: seq<nat>)
    requires p.Valid() && |blocked| == p.NodeCount()
    ensures path == [] <==> !HasResidualPath(p, Marked(blocked))
    ensures path != [] ==> LeastTargetWalk(Residual(p, Marked(blocked)), path)
  {
    ghost var s := Residual(p, Marked(blocked));
    ResidualShape(p, blocked);
    hide Outer, Mirrors, Residual, Marked, Reached, LeastTargetWalk, HasResidualPath;
    var seen := new bool[p.NodeCount()](_ => false);
    var parent := new nat[p.NodeCount()](_ => INVALID_NODE);
    ghost var tree;
    var queue, target;
    queue, tree := QueueSources(p, blocked, seen, parent);
    target, tree := DrainQueue(p, blocked, seen, parent, queue, tree);
    if target == INVALID_NODE {
      return [];
    }
    ReachedFacts(s, tree, seen[..], parent[..], target);
    path := TracePath(p, parent, target, s, tree, seen[..]);
    LeastIsResidual(p, Marked(blocked), path);
  }

  /** The outer loop: dequeues nodes until an obligation is met or the queue runs empty. */
  method DrainQueue(p: Problem, blocked: seq<bool>, seen: array<bool>, parent: array<nat>, queue0: seq<nat>, ghost tree0: Tree)
    returns (target: nat, ghost tree: Tree)
    requires p.Valid() && |blocked| == p.NodeCount() == seen.Length == parent.Length
    requires Outer(Residual(p, Marked(blocked)), tree0, queue0, 0) && Mirrors(tree0, seen[..], parent[..])
    modifies seen, parent
    ensures target == INVALID_NODE ==> !HasResidualPath(p, Marked(blocked))
    ensures target != INVALID_NODE ==> Reached(Residual(p, Marked(blocked)), tree, seen[..], parent[..], target)
  {
    ghost var s := Residual(p, Marked(blocked));
    ResidualShape(p, blocked);
    hide Problem.Valid, WellFormed, Outer, Inner, Mirrors, Residual, Marked, Reached, Waiting, HasResidualPath;
    var queue := queue0;
    tree := tree0;
    ghost var order, head := queue, 0;
    assert Waiting(queue, order, head);
    target := INVALID_NODE;
    while queue != [] && target == INVALID_NODE
      invariant target == INVALID_NODE ==>
        Waiting(queue, order, head) && Outer(s, tree, order, head) && Mirrors(tree, seen[..], parent[..])
      invariant target != INVALID_NODE ==> Reached(s, tree, seen[..], parent[..], target)
      invariant head <= p.NodeCount()
      decreases p.NodeCount() - head
    {
      WaitingHead(queue, order, head);
      QueueBounded(s, tree, order, head);
      Dequeued(s, tree, order, head);
      var node := queue[0];
      queue := queue[1..];
      head := head + 1;
      target, queue, tree, order := ScanSuccessors(p, blocked, seen, parent, node, queue, tree, order, head);
    }
    if target == INVALID_NODE {
      WaitingHead(queue, order, head);
      NoneFound(p, Marked(blocked), tree, order);
    }
  }

  lemma NoneFound(p: Problem, removed: set<nat>, tree: Tree, order: seq<nat>)
    requires Outer(Residual(p, removed), tree, order, |order|)
    ensures !HasResidualPath(p, removed)
  {
    hide Outer;
    Exhausted(Residual(p, removed), tree, order);
  }

  lemma LeastIsResidual(p: Problem, removed: set<nat>, path: seq<nat>)
    requires LeastTargetWalk(Residual(p, removed), path)
    ensures HasResidualPath(p, removed) && path != []
  {
    hide AtMost;
  }

  /** The queue holds the discovered nodes that were not dequeued yet. */
  ghost predicate Waiting(queue: seq<nat>, order: seq<nat>, head: nat) {
    head <= |order| && queue == order[head..]
  }

  lemma WaitingHead(queue: seq<nat>, order: seq<nat>, head: nat)
    requires Waiting(queue, order, head)
    ensures head <= |order| && (queue == [] <==> head == |order|)
    ensures queue != [] ==> queue[0] == order[head] && order[head] in order && Waiting(queue[1..], order, head + 1)
  {
  }

  lemma WaitingGrown(queue: seq<nat>, order: seq<nat>, head: nat, x: nat)
    requires Waiting(queue, order, head) && 0 < head
    ensures Waiting(queue + [x], order + [x], head) && (order + [x])[head - 1] == order[head - 1]
  {
  }

  lemma ReachedFacts(s: Search, tree: Tree, seen: seq<bool>, parent: seq<nat>, target: nat)
    requires Reached(s, tree, seen, parent, target)
    ensures target in tree && LeastTargetWalk(s, tree[target]) && tree[target] != []
    ensures AllRooted(s, tree, tree.Keys) && Mirrors(tree, seen, parent)
  {
  }

  /** Every queued node is in range and no node is queued twice. */
  lemma QueueBounded(s: Search, tree: Tree, order: seq<nat>, head: nat)
    requires Outer(s, tree, order, head)
    ensures |order| <= |s.succ|
    ensures forall v :: v in order ==> v < |s.succ|
  {
    OrderDistinct(s, tree, order);
    DistinctIffCount(order);
    forall v | v in order ensures v < |s.succ| {
      RecordedWalk(s, tree, order, Elements(order[..head]), v);
    }
    SubsetCount(Elements(order), Range(|s.succ|));
  }

  /** The unblocked sources, in source order, start the search. */
  method QueueSources(p: Problem, blocked: seq<bool>, seen: array<bool>, parent: array<nat>)
    returns (queue: seq<nat>, ghost tree: Tree)
    requires p.Valid() && |blocked| == p.NodeCount() == seen.Length == parent.Length
    requires forall v :: 0 <= v < seen.Length ==> !seen[v] && parent[v] == INVALID_NODE
    modifies seen
    ensures Outer(Residual(p, Marked(blocked)), tree, queue, 0) && Mirrors(tree, seen[..], parent[..])
  {
    ghost var s := Residual(p, Marked(blocked));
    ResidualShape(p, blocked);
    queue, tree := [], map[];
    for i := 0 to |p.sources|
      invariant SourcesQueued(s, tree, queue, i)
      invariant Mirrors(tree, seen[..], parent[..])
      invariant forall v :: 0 <= v < seen.Length ==> parent[v] == INVALID_NODE
    {
      var source := p.sources[i];
      SourceStep(s, tree, queue, i);
      if !blocked[source] && !seen[source] {
        MirrorsGrown(tree, seen[..], parent[..], source, [source], INVALID_NODE);
        seen[source] := true;
        tree := tree[source := [source]];
        queue := queue + [source];
      }
    }
    SourcesReady(s, tree, queue);
  }

  /** The first `i` sources have been considered. */
  ghost predicate SourcesQueued(s: Search, tree: Tree, queue: seq<nat>, i: nat) {
    && i <= |s.sources| && Increasing(s, tree, queue)
    && (forall v :: v in tree ==> tree[v] == [v] && v in s.sources && v !in s.removed && IndexOf(s.sources, v) < i)
    && (forall j :: 0 <= j < i && s.sources[j] !in s.removed ==> s.sources[j] in tree)
  }

  lemma SourceStep(s: Search, tree: Tree, queue: seq<nat>, i: nat)
    requires SourcesQueued(s, tree, queue, i) && i < |s.sources| && Distinct(s.sources)
    ensures var v := s.sources[i];
      if v in s.removed || v in tree then SourcesQueued(s, tree, queue, i + 1)
      else SourcesQueued(s, tree[v := [v]], queue + [v], i + 1)
  {
    var v := s.sources[i];
    assert IndexOf(s.sources, v) == i;
    if v !in s.removed && v !in tree {
      forall w | w in tree ensures Earlier(s.sources, tree[w], [v]) {
        assert DiffersFirstAt(s.sources, tree[w], [v], 0);
      }
      IncreasingGrown(s, tree, queue, v, [v]);
    }
  }

  lemma SourcesReady(s: Search, tree: Tree, queue: seq<nat>)
    requires WellFormed(s) && SourcesQueued(s, tree, queue, |s.sources|)
    ensures Outer(s, tree, queue, 0)
  {
    assert Elements(queue[..0]) == {};
    forall v | v in tree ensures Rooted(s, tree, {}, v) {}
  }

  /** What the search knows once it met an obligation. */
  ghost predicate Reached(s: Search, tree: Tree, seen: seq<bool>, parent: seq<nat>, target: nat) {
    && target in tree && LeastTargetWalk(s, tree[target])
    && AllRooted(s, tree, tree.Keys) && Mirrors(tree, seen, parent)
  }

  lemma TargetReached(s: Search, tree: Tree, order: seq<nat>, head: nat, k: nat, seen: seq<bool>, parent: seq<nat>, u: nat, t: nat)
    requires 0 < head <= |order| && u == order[head - 1] && u in tree && tree[u] != [] && tree[u][|tree[u]| - 1] == u
    requires u < |s.succ| == |seen| && k < |s.succ[u]| && t == s.succ[u][k]
    requires t !in s.removed && t !in tree && t in s.targets && t < |seen| == |parent|
    requires WellFormed(s) && Inner(s, tree, order, head, k) && Mirrors(tree, seen, parent)
    ensures Reached(s, tree[t := tree[u] + [t]], seen[t := true], parent[t := u], t)
  {
    hide Seeded, Increasing, AllExpanded, NoTarget, ChildrenBelow, Expanded, LeastTargetWalk, WellFormed, AllRooted, Walk;
    Found(s, tree, order, head, k);
    PrefixElements(order, head);
    RecordedWalk(s, tree, order, Elements(order[..head]), u);
    assert Link(s.succ, u, t);
    TargetIsNoSource(s, t);
    RootedGrown(s, tree, Elements(order[..head]), u, t);
    RootedWeakened(s, tree[t := tree[u] + [t]], Elements(order[..head]), tree.Keys + {t});
    assert tree[t := tree[u] + [t]].Keys == tree.Keys + {t};
    MirrorsGrown(tree, seen, parent, t, tree[u] + [t], u);
  }

  lemma NodeDiscovered(s: Search, tree: Tree, order: seq<nat>, head: nat, k: nat, seen: seq<bool>, parent: seq<nat>, u: nat, x: nat)
    requires 0 < head <= |order| && u == order[head - 1] && u in tree && tree[u] != [] && tree[u][|tree[u]| - 1] == u
    requires u < |s.succ| == |seen| && k < |s.succ[u]| && x == s.succ[u][k]
    requires x !in s.removed && x !in tree && x !in s.targets && x < |seen| == |parent|
    requires WellFormed(s) && Inner(s, tree, order, head, k) && Mirrors(tree, seen, parent)
    ensures Inner(s, tree[x := tree[u] + [x]], order + [x], head, k + 1)
    ensures Mirrors(tree[x := tree[u] + [x]], seen[x := true], parent[x := u])
  {
    hide Inner, WellFormed, Mirrors;
    Discovered(s, tree, order, head, k);
    MirrorsGrown(tree, seen, parent, x, tree[u] + [x], u);
  }

  lemma TargetIsNoSource(s: Search, t: nat)
    requires WellFormed(s) && t in s.targets
    ensures t !in s.sources
  {
  }

  lemma RootedWeakened(s: Search, tree: Tree, done: set<nat>, more: set<nat>)
    requires AllRooted(s, tree, done) && done * tree.Keys <= more
    ensures AllRooted(s, tree, more)
  {
    forall v | v in tree ensures Rooted(s, tree, more, v) {
      assert Rooted(s, tree, done, v);
    }
  }

  method Record(seen: array<bool>, parent: array<nat>, v: nat, u: nat)
    requires v < seen.Length == parent.Length
    modifies seen, parent
    ensures seen[..] == old(seen[..])[v := true] && parent[..] == old(parent[..])[v := u]
  {
    seen[v] := true;
    parent[v] := u;
  }

  /** The inner loop: visits the successors of the dequeued node, stopping at an obligation. */
  method ScanSuccessors(p: Problem, blocked: seq<bool>, seen: array<bool>, parent: array<nat>, node: nat,
      pending: seq<nat>, ghost tree0: Tree, ghost order0: seq<nat>, ghost head: nat)
    returns (target: nat, queue: seq<nat>, ghost tree: Tree, ghost order: seq<nat>)
    requires p.Valid() && |blocked| == p.NodeCount() == seen.Length == parent.Length
    requires head <= |order0| && Inner(Residual(p, Marked(blocked)), tree0, order0, head, 0)
    requires node == order0[head - 1] && node < p.NodeCount() && Waiting(pending, order0, head)
    requires Mirrors(tree0, seen[..], parent[..])
    modifies seen, parent
    ensures target == INVALID_NODE ==>
      && Waiting(queue, order, head) && Mirrors(tree, seen[..], parent[..])
      && Outer(Residual(p, Marked(blocked)), tree, order, head)
    ensures target != INVALID_NODE ==> Reached(Residual(p, Marked(blocked)), tree, seen[..], parent[..], target)
  {
    ghost var s := Residual(p, Marked(blocked));
    ResidualShape(p, blocked);
    hide Problem.Valid, WellFormed, Seeded, Increasing, AllExpanded, NoTarget, ChildrenBelow, Expanded, AllRooted, Mirrors, Residual, Reached, Outer, Inner, Waiting;
    target, queue, tree, order := INVALID_NODE, pending, tree0, order0;
    var k := 0;
    while k < |p.graph.conservative[node]|
      invariant k <= |p.graph.conservative[node]|
      invariant 0 < head <= |order| && order[head - 1] == node && Waiting(queue, order, head)
      invariant Inner(s, tree, order, head, k) && Mirrors(tree, seen[..], parent[..])
    {
      InnerFacts(s, tree, order, head, k, node);
      var next := p.graph.conservative[node][k];
      MirrorsAt(tree, seen[..], parent[..], next);
      if blocked[next] || seen[next] {
        Skipped(s, tree, order, head, k);
      } else {
        ghost var walk := tree[node] + [next];
        if p.isProtected[next] {
          TargetReached(s, tree, order, head, k, seen[..], parent[..], node, next);
          Record(seen, parent, next, node);
          tree := tree[next := walk];
          target := next;
          return;
        }
        WaitingGrown(queue, order, head, next);
        NodeDiscovered(s, tree, order, head, k, seen[..], parent[..], node, next);
        Record(seen, parent, next, node);
        tree, order := tree[next := walk], order + [next];
        queue := queue + [next];
      }
      k := k + 1;
    }
    Scanned(s, tree, order, head, k);
  }

  lemma InnerFacts(s: Search, tree: Tree, order: seq<nat>, head: nat, k: nat, u: nat)
    requires WellFormed(s) && 0 < head <= |order| && order[head - 1] == u
    requires Inner(s, tree, order, head, k)
    ensures u in tree && tree[u] != [] && tree[u][|tree[u]| - 1] == u && u < |s.succ| && k <= |s.succ[u]|
    ensures forall x :: x in s.succ[u] && x !in tree && x !in s.removed ==> x !in s.sources
    ensures forall i :: 0 <= i < |s.succ[u]| ==> s.succ[u][i] < |s.succ|
  {
    hide ChildrenBelow, AllExpanded, NoTarget;
    RecordedWalk(s, tree, order, Elements(order[..head]), u);
    assert forall i :: 0 <= i < |s.succ[u]| ==> s.succ[u][i] in s.succ[u];
  }

  lemma MirrorsAt(tree: Tree, seen: seq<bool>, parent: seq<nat>, v: nat)
    requires Mirrors(tree, seen, parent) && v < |seen|
    ensures (seen[v] <==> v in tree) && (v in tree ==> ParentMatches(tree[v], parent[v]))
  {
  }

  /** Following parents from the target back to a source spells the recorded walk. */
  method TracePath(p: Problem, parent: array<nat>, target: nat, ghost s: Search, ghost tree: Tree, ghost seen: seq<bool>)
    returns (path: seq<nat>)
    requires p.Valid() && s.sources == p.sources && |s.succ| == parent.Length == p.NodeCount()
    requires target in tree && |seen| == p.NodeCount() && AllRooted(s, tree, tree.Keys) && Mirrors(tree, seen, parent[..])
    ensures path == tree[target]
  {
    hide AllRooted, Mirrors;
    var backwards := [];
    var node := target;
    ghost var rest := tree[target];
    TreeFacts(p, s, tree, seen, parent[..], node);
    while node != INVALID_NODE
      invariant node != INVALID_NODE && node in tree && rest == tree[node] && tree[target] == rest + Backwards(backwards)
      decreases |rest|
    {
      TreeFacts(p, s, tree, seen, parent[..], node);
      TraceStep(tree[target], rest, backwards, node);
      backwards := backwards + [node];
      if p.isSource[node] {
        break;
      }
      node := parent[node];
      rest := tree[node];
      TreeFacts(p, s, tree, seen, parent[..], node);
    }
    path := Backwards(backwards);
  }

  lemma TraceStep(whole: seq<nat>, rest: seq<nat>, backwards: seq<nat>, v: nat)
    requires whole == rest + Backwards(backwards) && rest != [] && rest[|rest| - 1] == v
    ensures whole == rest[..|rest| - 1] + Backwards(backwards + [v])
    ensures |rest| == 1 ==> whole == Backwards(backwards + [v])
  {
    BackwardsAppend(backwards, v);
    assert rest == rest[..|rest| - 1] + [v];
  }

  lemma TreeFacts(p: Problem, s: Search, tree: Tree, seen: seq<bool>, parent: seq<nat>, v: nat)
    requires p.Valid() && s.sources == p.sources && |s.succ| == |seen| == |parent| == p.NodeCount() && v in tree
    requires AllRooted(s, tree, tree.Keys) && Mirrors(tree, seen, parent)
    ensures v < p.NodeCount() && v != INVALID_NODE
    ensures tree[v] != [] && tree[v][|tree[v]| - 1] == v
    ensures if p.isSource[v] then |tree[v]| == 1
            else |tree[v]| > 1 && parent[v] in tree && parent[v] < p.NodeCount() && tree[parent[v]] == tree[v][..|tree[v]| - 1]
  {
    hide Distinct;
    assert Rooted(s, tree, tree.Keys, v);
    SourceMask(p, v);
    MirrorsAt(tree, seen, parent, v);
  }

  lemma SourceMask(p: Problem, v: nat)
    requires p.Valid() && v < p.NodeCount()
    ensures p.isSource[v] <==> v in p.sources
  {
    assert v in p.sources <==> v in Elements(p.sources);
  }
}
