/** Plain breadth-first reachability: which nodes a search reaches, and whether it meets a target. */
module Reachability {
  import opened Collections
  import opened BreadthFirst

  ghost predicate Reachable(s: Search, v: nat) {
    exists q :: Walk(s, q) && q[|q| - 1] == v
  }

  /** Every successor of a finished node that is not removed has been seen. */
  ghost predicate Closed(s: Search, seen: set<nat>, finished: set<nat>) {
    forall u, x :: u in finished && Link(s.succ, u, x) && x !in s.removed ==> x in seen
  }

  /** Everything seen is reachable, and everything finished is closed and no target. */
  ghost predicate Flooding(s: Search, seen: set<nat>, queue: seq<nat>) {
    && (forall v :: v in queue ==> v in seen)
    && (forall v :: v in seen ==> v < |s.succ| && v !in s.removed && Reachable(s, v))
    && (forall v :: v in s.sources && v !in s.removed ==> v in seen)
    && Closed(s, seen, seen - Elements(queue))
    && (seen - Elements(queue)) !! s.targets
  }

  lemma OneStepFurther(s: Search, u: nat, x: nat)
    requires Reachable(s, u) && Link(s.succ, u, x) && x !in s.removed && x < |s.succ|
    ensures Reachable(s, x)
  {
    var q :| Walk(s, q) && q[|q| - 1] == u;
    WalkExtended(s, q, x);
    assert (q + [x])[|q + [x]| - 1] == x;
  }

  lemma {:induction false} WalkStaysSeen(s: Search, seen: set<nat>, q: seq<nat>, i: nat)
    requires Flooding(s, seen, []) && Walk(s, q) && i < |q|
    ensures q[i] in seen
  {
    if i != 0 {
      WalkStaysSeen(s, seen, q, i - 1);
      assert Link(s.succ, q[i - 1], q[i]);
    }
  }

  /** When the queue runs empty the seen nodes are exactly the reachable ones, and none is a target. */
  lemma FloodComplete(s: Search, seen: set<nat>)
    requires Flooding(s, seen, [])
    ensures forall v :: v in seen <==> Reachable(s, v)
    ensures forall q :: !TargetWalk(s, q)
  {
    forall v | Reachable(s, v) ensures v in seen {
      var q :| Walk(s, q) && q[|q| - 1] == v;
      WalkStaysSeen(s, seen, q, |q| - 1);
    }
    forall q ensures !TargetWalk(s, q) {
      if Walk(s, q) { WalkStaysSeen(s, seen, q, |q| - 1); }
    }
  }

  /** The part of the flood that holds while a dequeued node's successors are scanned. */
  ghost predicate Scanning(s: Search, seen: set<nat>, queue: seq<nat>, u: nat, k: nat) {
    && u in seen && u < |s.succ| && k <= |s.succ[u]| && u !in s.targets
    && (forall v :: v in queue ==> v in seen)
    && (forall v :: v in seen ==> v < |s.succ| && v !in s.removed && Reachable(s, v))
    && (forall v :: v in s.sources && v !in s.removed ==> v in seen)
    && Closed(s, seen, seen - Elements(queue) - {u})
    && (seen - Elements(queue) - {u}) !! s.targets
    && (forall i :: 0 <= i < k && s.succ[u][i] !in s.removed ==> s.succ[u][i] in seen)
  }

  lemma ScanBegins(s: Search, seen: set<nat>, queue: seq<nat>)
    requires Flooding(s, seen, queue) && queue != [] && queue[0] !in s.targets
    ensures Scanning(s, seen, queue[1..], queue[0], 0)
  {
    assert queue == [queue[0]] + queue[1..];
    assert Elements(queue) == Elements(queue[1..]) + {queue[0]};
    assert forall v :: v in queue[1..] ==> v in queue;
  }

  lemma ScanStep(s: Search, seen: set<nat>, queue: seq<nat>, u: nat, k: nat)
    requires Scanning(s, seen, queue, u, k) && k < |s.succ[u]| && s.succ[u][k] < |s.succ|
    ensures var x := s.succ[u][k];
      if x in s.removed || x in seen then Scanning(s, seen, queue, u, k + 1)
      else Scanning(s, seen + {x}, queue + [x], u, k + 1)
  {
    var x := s.succ[u][k];
    if x !in s.removed && x !in seen {
      OneStepFurther(s, u, x);
      ElementsAppend(queue, x);
      assert seen + {x} - Elements(queue + [x]) - {u} == seen - Elements(queue) - {u};
      assert forall v :: v in queue + [x] ==> v in queue || v == x;
    }
  }

  lemma ScanEnds(s: Search, seen: set<nat>, queue: seq<nat>, u: nat)
    requires u < |s.succ| && Scanning(s, seen, queue, u, |s.succ[u]|)
    ensures Flooding(s, seen, queue)
  {
  }

  /** Floods the graph from `sources` around `blocked`, stopping early at a target. */
  method Flood(succ: seq<seq<nat>>, sources: seq<nat>, blocked: seq<bool>, isTarget: seq<bool>)
    returns (met: bool, seen: seq<bool>)
    requires |blocked| == |isTarget| == |succ|
    requires forall i :: 0 <= i < |sources| ==> sources[i] < |succ|
    requires forall u: nat, x: nat :: Link(succ, u, x) ==> x < |succ|
    ensures |seen| == |succ|
    ensures met <==> exists q :: TargetWalk(Search(succ, sources, Marked(blocked), Marked(isTarget)), q)
    ensures !met ==> forall v: nat ::
      v < |succ| && seen[v] <==> Reachable(Search(succ, sources, Marked(blocked), Marked(isTarget)), v)
  {
    ghost var s := Search(succ, sources, Marked(blocked), Marked(isTarget));
    var visited := new bool[|succ|](_ => false);
    var queue := [];
    hide Flooding, Scanning, Reachable, TargetWalk, Closed;
    queue := FloodSources(sources, blocked, visited);
    SourcesFlooded(s, Marked(visited[..]), queue);
    met := DrainFlood(succ, blocked, isTarget, visited, queue, s);
    if !met { FloodComplete(s, Marked(visited[..])); }
    seen := visited[..];
  }

  /** Takes nodes off the queue until a target turns up or nothing is left. */
  method DrainFlood(succ: seq<seq<nat>>, blocked: seq<bool>, isTarget: seq<bool>, visited: array<bool>, pending: seq<nat>, ghost s: Search)
    returns (met: bool)
    requires s.succ == succ && s.removed == Marked(blocked) && s.targets == Marked(isTarget)
    requires |blocked| == |isTarget| == |succ| == visited.Length
    requires forall u: nat, x: nat :: Link(succ, u, x) ==> x < |succ|
    requires Flooding(s, Marked(visited[..]), pending)
    modifies visited
    ensures met ==> exists q :: TargetWalk(s, q)
    ensures !met ==> Flooding(s, Marked(visited[..]), [])
  {
    hide Flooding, Scanning, Reachable, TargetWalk, Closed;
    var queue := pending;
    while queue != []
      invariant Flooding(s, Marked(visited[..]), queue)
      decreases Range(|succ|) - Marked(visited[..]), |queue|
    {
      var node := queue[0];
      FloodFacts(s, Marked(visited[..]), queue);
      if isTarget[node] { return true; }
      ScanBegins(s, Marked(visited[..]), queue);
      queue := queue[1..];
      queue := FloodStep(succ, blocked, visited, node, queue, s);
    }
    met := false;
  }

  /** Every open source is visited and queued. */
  method FloodSources(sources: seq<nat>, blocked: seq<bool>, visited: array<bool>) returns (queue: seq<nat>)
    requires |blocked| == visited.Length && forall v :: 0 <= v < visited.Length ==> !visited[v]
    requires forall i :: 0 <= i < |sources| ==> sources[i] < |blocked|
    modifies visited
    ensures forall v :: v in queue <==> v in Marked(visited[..])
    ensures forall v :: v in queue ==> v in sources && v < |blocked| && v !in Marked(blocked)
    ensures forall v :: v in sources && v !in Marked(blocked) ==> v in Marked(visited[..])
  {
    queue := [];
    for i := 0 to |sources|
      invariant forall v :: v in queue <==> v in Marked(visited[..])
      invariant forall v :: v in queue ==> v in sources && v < |blocked| && !blocked[v]
      invariant forall j :: 0 <= j < i && !blocked[sources[j]] ==> visited[sources[j]]
    {
      var source := sources[i];
      if !blocked[source] && !visited[source] {
        MarkedUpdate(visited[..], source, true);
        visited[source] := true;
        queue := queue + [source];
      }
    }
  }

  lemma FloodFacts(s: Search, seen: set<nat>, queue: seq<nat>)
    requires Flooding(s, seen, queue) && queue != []
    ensures queue[0] < |s.succ|
    ensures queue[0] in s.targets ==> exists q :: TargetWalk(s, q)
  {
    assert queue[0] in queue && Reachable(s, queue[0]);
    var q :| Walk(s, q) && q[|q| - 1] == queue[0];
    assert queue[0] in s.targets ==> TargetWalk(s, q);
  }

  lemma SourcesFlooded(s: Search, seen: set<nat>, queue: seq<nat>)
    requires forall v :: v in queue <==> v in seen
    requires forall v :: v in queue ==> v in s.sources && v !in s.removed && v < |s.succ|
    requires forall v :: v in s.sources && v !in s.removed ==> v in seen
    ensures Flooding(s, seen, queue)
  {
    forall v | v in seen ensures Reachable(s, v) { assert Walk(s, [v]); assert [v][|[v]| - 1] == v; }
    assert seen - Elements(queue) == {};
  }

  method FloodStep(succ: seq<seq<nat>>, blocked: seq<bool>, visited: array<bool>, node: nat, pending: seq<nat>, ghost s: Search)
    returns (queue: seq<nat>)
    requires s.succ == succ && |blocked| == |succ| == visited.Length && s.removed == Marked(blocked)
    requires forall u: nat, x: nat :: Link(succ, u, x) ==> x < |succ|
    requires Scanning(s, Marked(visited[..]), pending, node, 0)
    modifies visited
    ensures Flooding(s, Marked(visited[..]), queue)
    ensures Marked(old(visited[..])) <= Marked(visited[..])
    ensures queue == pending || Marked(old(visited[..])) < Marked(visited[..])
  {
    hide Flooding, Reachable, Closed;
    queue := pending;
    var k := 0;
    while k < |succ[node]|
      invariant k <= |succ[node]| && Scanning(s, Marked(visited[..]), queue, node, k)
      invariant Marked(old(visited[..])) <= Marked(visited[..])
      invariant queue == pending || Marked(old(visited[..])) < Marked(visited[..])
    {
      var next := succ[node][k];
      assert Link(succ, node, next);
      ScanStep(s, Marked(visited[..]), queue, node, k);
      if !blocked[next] && !visited[next] {
        MarkedUpdate(visited[..], next, true);
        visited[next] := true;
        queue := queue + [next];
      }
      k := k + 1;
    }
    ScanEnds(s, Marked(visited[..]), queue, node);
  }
}
