/** Breadth-first search with a parent tree over adjacency lists: the order on walks, the
    tree a search records, and why the first target it meets ends the least walk of all. */
module BreadthFirst {
  import opened Collections

  /** One search: adjacency lists, ordered sources, removed nodes and the nodes looked for. */
  datatype Search = Search(succ: seq<seq<nat>>, sources: seq<nat>, removed: set<nat>, targets: set<nat>)

  type Tree = map<nat, seq<nat>>

  // ---------------------------------------------------------------------
  // Walks and their order
  // ---------------------------------------------------------------------

  ghost predicate Link(succ: seq<seq<nat>>, u: nat, x: nat) {
    u < |succ| && x in succ[u]
  }

  /** A walk along links from a source, meeting no removed node. */
  ghost predicate Walk(s: Search, q: seq<nat>) {
    && q != [] && q[0] in s.sources
    && (forall i :: 0 <= i < |q| ==> q[i] < |s.succ| && q[i] !in s.removed)
    && (forall i :: 0 < i < |q| ==> Link(s.succ, q[i - 1], q[i]))
  }

  ghost predicate TargetWalk(s: Search, q: seq<nat>) {
    Walk(s, q) && q[|q| - 1] in s.targets
  }

  lemma WalkStep(s: Search, w: seq<nat>, i: nat)
    requires Walk(s, w) && 0 < i < |w|
    ensures Link(s.succ, w[i - 1], w[i])
  {
  }

  function IndexOf(s: seq<nat>, x: nat): (r: nat)
    ensures r <= |s| && (x in s <==> r < |s|)
    ensures r < |s| ==> s[r] == x
    ensures forall j :: 0 <= j < r ==> s[j] != x
  {
    if s == [] then 0 else if s[0] == x then 0 else 1 + IndexOf(s[1..], x)
  }

  /** At the first step walks compare by position in the source list, later by node index. */
  predicate StepLess(sources: seq<nat>, k: nat, x: nat, y: nat) {
    if k == 0 then IndexOf(sources, x) < IndexOf(sources, y) else x < y
  }

  ghost predicate DiffersFirstAt(sources: seq<nat>, q: seq<nat>, r: seq<nat>, k: nat) {
    && k < |q| && k < |r|
    && (forall i :: 0 <= i < k ==> q[i] == r[i])
    && StepLess(sources, k, q[k], r[k])
  }

  /** Fewer hops first; among equally long walks the smaller step at the first difference. */
  ghost predicate Earlier(sources: seq<nat>, q: seq<nat>, r: seq<nat>) {
    |q| < |r| || (|q| == |r| && exists k: nat :: DiffersFirstAt(sources, q, r, k))
  }

  ghost predicate AtMost(sources: seq<nat>, q: seq<nat>, r: seq<nat>) {
    q == r || Earlier(sources, q, r)
  }

  lemma EarlierExtended(sources: seq<nat>, q: seq<nat>, r: seq<nat>, x: nat, y: nat)
    requires Earlier(sources, q, r)
    ensures Earlier(sources, q + [x], r + [y])
  {
    if |q| == |r| {
      var k: nat :| DiffersFirstAt(sources, q, r, k);
      assert DiffersFirstAt(sources, q + [x], r + [y], k);
    }
  }

  lemma EarlierByLastStep(sources: seq<nat>, q: seq<nat>, x: nat, y: nat)
    requires q != [] && x < y
    ensures Earlier(sources, q + [x], q + [y])
  {
    assert DiffersFirstAt(sources, q + [x], q + [y], |q|);
  }

  lemma EarlierTransitive(sources: seq<nat>, q: seq<nat>, r: seq<nat>, s: seq<nat>)
    requires Earlier(sources, q, r) && Earlier(sources, r, s)
    ensures Earlier(sources, q, s)
  {
    if |q| == |s| {
      var j: nat :| DiffersFirstAt(sources, q, r, j);
      var k: nat :| DiffersFirstAt(sources, r, s, k);
      var m := if j <= k then j else k;
      assert DiffersFirstAt(sources, q, s, m);
    }
  }

  lemma EarlierIrreflexive(sources: seq<nat>, q: seq<nat>)
    ensures !Earlier(sources, q, q)
  {
  }

  lemma AtMostTransitive(sources: seq<nat>, q: seq<nat>, r: seq<nat>, s: seq<nat>)
    requires AtMost(sources, q, r) && AtMost(sources, r, s)
    ensures AtMost(sources, q, s)
    ensures q != r || r != s ==> Earlier(sources, q, s)
  {
    if q != r && r != s { EarlierTransitive(sources, q, r, s); }
  }

  lemma AtMostExtended(sources: seq<nat>, q: seq<nat>, r: seq<nat>, x: nat)
    requires AtMost(sources, q, r)
    ensures AtMost(sources, q + [x], r + [x])
  {
    if q != r { EarlierExtended(sources, q, r, x, x); }
  }

  // ---------------------------------------------------------------------
  // The tree of recorded walks
  // ---------------------------------------------------------------------

  function Parent(q: seq<nat>): nat
    requires |q| > 1
  {
    q[|q| - 2]
  }

  /** The walk recorded for `v`: simple, and either a source or a step from a dequeued parent. */
  ghost predicate Rooted(s: Search, tree: Tree, done: set<nat>, v: nat)
    requires v in tree
  {
    var q := tree[v];
    && Walk(s, q) && q[|q| - 1] == v && Distinct(q)
    && (forall x :: x in q ==> x in tree)
    && (|q| > 1 ==> v !in s.sources && Parent(q) in done && Parent(q) in tree && q == tree[Parent(q)] + [v])
  }

  ghost predicate AllRooted(s: Search, tree: Tree, done: set<nat>) {
    forall v :: v in tree ==> Rooted(s, tree, done, v)
  }

  /** `order` lists the discovered nodes as they were queued; recorded walks increase along it. */
  ghost predicate Increasing(s: Search, tree: Tree, order: seq<nat>) {
    && (forall v :: v in tree <==> v in order)
    && (forall i, j :: 0 <= i < j < |order| && order[i] in tree && order[j] in tree ==>
          Earlier(s.sources, tree[order[i]], tree[order[j]]))
  }

  ghost predicate Seeded(s: Search, tree: Tree) {
    forall v :: v in s.sources && v !in s.removed ==> v in tree && tree[v] == [v]
  }

  /** The first `k` links of `u` lead to nodes reached no later than through `u`. */
  ghost predicate Expanded(s: Search, tree: Tree, u: nat, k: nat) {
    && u in tree && u < |s.succ| && k <= |s.succ[u]|
    && forall i :: 0 <= i < k && s.succ[u][i] !in s.removed ==>
         s.succ[u][i] in tree && AtMost(s.sources, tree[s.succ[u][i]], tree[u] + [s.succ[u][i]])
  }

  ghost predicate AllExpanded(s: Search, tree: Tree, done: set<nat>) {
    forall u :: u in done ==> u < |s.succ| && Expanded(s, tree, u, |s.succ[u]|)
  }

  /** Nodes whose parent is `u` are among its first `k` links. */
  ghost predicate ChildrenBelow(s: Search, tree: Tree, u: nat, k: nat)
    requires u < |s.succ| && k <= |s.succ[u]|
  {
    forall v :: v in tree && |tree[v]| > 1 && Parent(tree[v]) == u ==> v in s.succ[u][..k]
  }

  ghost predicate NoTarget(s: Search, tree: Tree) {
    forall v :: v in tree ==> v !in s.targets
  }

  /** Nothing has been discovered through a node that was not dequeued yet. */
  lemma NoChildrenYet(s: Search, tree: Tree, done: set<nat>, u: nat)
    requires AllRooted(s, tree, done) && u !in done && u < |s.succ|
    ensures ChildrenBelow(s, tree, u, 0)
    ensures AllRooted(s, tree, done + {u})
  {
    forall v | v in tree ensures Rooted(s, tree, done + {u}, v) && !(|tree[v]| > 1 && Parent(tree[v]) == u) {
      assert Rooted(s, tree, done, v);
    }
  }

  lemma OrderDistinct(s: Search, tree: Tree, order: seq<nat>)
    requires Increasing(s, tree, order)
    ensures Distinct(order)
  {
    forall i, j | 0 <= i < j < |order| ensures order[i] != order[j] {
      assert order[i] in tree && order[j] in tree;
      EarlierIrreflexive(s.sources, tree[order[i]]);
    }
  }

  /** The recorded walk of a dequeued node is no later than the current node's. */
  lemma DequeuedBefore(s: Search, tree: Tree, order: seq<nat>, head: nat, w: nat)
    requires Increasing(s, tree, order) && 0 < head <= |order|
    requires w in order[..head]
    ensures w in tree && order[head - 1] in tree
    ensures AtMost(s.sources, tree[w], tree[order[head - 1]])
    ensures w != order[head - 1] ==> Earlier(s.sources, tree[w], tree[order[head - 1]])
  {
    var i :| 0 <= i < head && order[i] == w;
    assert order[i] in tree && order[head - 1] in tree;
  }

  /** A node discovered before is reached no later than through the current node. */
  lemma KnownNode(s: Search, tree: Tree, order: seq<nat>, head: nat, x: nat)
    requires Increasing(s, tree, order) && 0 < head <= |order| && AllRooted(s, tree, Elements(order[..head]))
    requires x in tree
    ensures var u := order[head - 1]; u in tree && AtMost(s.sources, tree[x], tree[u] + [x])
  {
    var u := order[head - 1];
    assert u in tree;
    assert Rooted(s, tree, Elements(order[..head]), x) && Rooted(s, tree, Elements(order[..head]), u);
    if |tree[x]| > 1 {
      DequeuedBefore(s, tree, order, head, Parent(tree[x]));
      AtMostExtended(s.sources, tree[Parent(tree[x])], tree[u], x);
    }
  }

  /** A new step from the current node comes after every recorded walk. */
  lemma NewNodeLast(s: Search, tree: Tree, order: seq<nat>, head: nat, k: nat, v: nat)
    requires Increasing(s, tree, order) && 0 < head <= |order| && AllRooted(s, tree, Elements(order[..head]))
    requires var u := order[head - 1];
      u < |s.succ| && k < |s.succ[u]| && Ascending(s.succ[u]) && ChildrenBelow(s, tree, u, k)
    requires v in tree
    ensures var u := order[head - 1]; u in tree && Earlier(s.sources, tree[v], tree[u] + [s.succ[u][k]])
  {
    var u := order[head - 1];
    assert u in tree;
    assert Rooted(s, tree, Elements(order[..head]), v) && Rooted(s, tree, Elements(order[..head]), u);
    if |tree[v]| > 1 {
      var w := Parent(tree[v]);
      DequeuedBefore(s, tree, order, head, w);
      if w == u {
        EarlierByLastStep(s.sources, tree[u], v, s.succ[u][k]);
      } else {
        EarlierExtended(s.sources, tree[w], tree[u], v, s.succ[u][k]);
      }
    }
  }

  lemma WalkExtended(s: Search, q: seq<nat>, x: nat)
    requires Walk(s, q) && Link(s.succ, q[|q| - 1], x) && x !in s.removed && x < |s.succ|
    ensures Walk(s, q + [x])
  {
    var r := q + [x];
    forall i | 0 < i < |r| ensures Link(s.succ, r[i - 1], r[i]) {
      if i < |q| { assert Link(s.succ, q[i - 1], q[i]); }
    }
  }

  /** Recording a new node keeps every recorded walk and its shape. */
  lemma RootedGrown(s: Search, tree: Tree, done: set<nat>, u: nat, x: nat)
    requires AllRooted(s, tree, done) && u in done && u in tree
    requires Link(s.succ, u, x) && x !in s.removed && x < |s.succ| && x !in tree && x !in s.sources
    ensures AllRooted(s, tree[x := tree[u] + [x]], done)
  {
    var grown := tree[x := tree[u] + [x]];
    assert Rooted(s, tree, done, u);
    WalkExtended(s, tree[u], x);
    forall v | v in grown ensures Rooted(s, grown, done, v) {
      if v != x { assert Rooted(s, tree, done, v); }
    }
  }

  lemma IncreasingGrown(s: Search, tree: Tree, order: seq<nat>, x: nat, q: seq<nat>)
    requires Increasing(s, tree, order) && x !in tree
    requires forall v :: v in tree ==> Earlier(s.sources, tree[v], q)
    ensures Increasing(s, tree[x := q], order + [x])
  {
    var all := order + [x];
    forall i, j | 0 <= i < j < |all| && all[i] in tree[x := q] && all[j] in tree[x := q]
      ensures Earlier(s.sources, tree[x := q][all[i]], tree[x := q][all[j]])
    {
      assert all[i] in order;
      assert j < |order| ==> all[j] in order;
    }
  }

  lemma ExpandedGrown(s: Search, tree: Tree, u: nat, k: nat, x: nat, q: seq<nat>)
    requires Expanded(s, tree, u, k) && x !in tree
    ensures Expanded(s, tree[x := q], u, k)
  {
  }

  lemma AllExpandedGrown(s: Search, tree: Tree, done: set<nat>, x: nat, q: seq<nat>)
    requires AllExpanded(s, tree, done) && x !in tree
    ensures AllExpanded(s, tree[x := q], done)
  {
    forall u | u in done ensures u < |s.succ| && Expanded(s, tree[x := q], u, |s.succ[u]|) {
      ExpandedGrown(s, tree, u, |s.succ[u]|, x, q);
    }
  }

  // ---------------------------------------------------------------------
  // Minimality
  // ---------------------------------------------------------------------

  /** Following any walk through expanded nodes never overtakes the recorded walks. */
  lemma {:induction false} Followed(s: Search, tree: Tree, done: set<nat>, q: seq<nat>, i: nat)
    requires Seeded(s, tree) && AllExpanded(s, tree, done)
    requires Walk(s, q) && i < |q| && forall j :: 0 <= j < i ==> q[j] in done
    ensures q[i] in tree && AtMost(s.sources, tree[q[i]], q[..i + 1])
  {
    if i == 0 {
      assert q[..1] == [q[0]];
    } else {
      Followed(s, tree, done, q, i - 1);
      var u, x := q[i - 1], q[i];
      assert Link(s.succ, u, x);
      assert Expanded(s, tree, u, |s.succ[u]|);
      assert q[..i + 1] == q[..i] + [x];
      AtMostExtended(s.sources, tree[u], q[..i], x);
      AtMostTransitive(s.sources, tree[x], tree[u] + [x], q[..i + 1]);
    }
  }

  lemma {:induction false} AllReached(s: Search, tree: Tree, q: seq<nat>, i: nat)
    requires Seeded(s, tree) && AllExpanded(s, tree, tree.Keys)
    requires Walk(s, q) && i < |q|
    ensures forall j :: 0 <= j <= i ==> q[j] in tree
  {
    if i != 0 { AllReached(s, tree, q, i - 1); }
    Followed(s, tree, tree.Keys, q, i);
  }

  /** When every discovered node was expanded, every walk ends at a discovered node. */
  lemma ExhaustedMeansNone(s: Search, tree: Tree, q: seq<nat>)
    requires Seeded(s, tree) && AllExpanded(s, tree, tree.Keys) && NoTarget(s, tree)
    requires Walk(s, q)
    ensures q[|q| - 1] in tree && !TargetWalk(s, q)
  {
    AllReached(s, tree, q, |q| - 1);
  }

  /** Some step of a target walk was discovered but not dequeued. */
  lemma {:induction false} Pending(s: Search, tree: Tree, done: set<nat>, q: seq<nat>, i: nat) returns (j: nat)
    requires Seeded(s, tree) && AllExpanded(s, tree, done) && NoTarget(s, tree)
    requires TargetWalk(s, q) && i < |q| && forall l :: 0 <= l < i ==> q[l] in done
    ensures j < |q| - 1 && q[j] in tree && q[j] !in done
    ensures AtMost(s.sources, tree[q[j]], q[..j + 1])
    decreases |q| - i
  {
    Followed(s, tree, done, q, i);
    if q[i] in done {
      j := Pending(s, tree, done, q, i + 1);
    } else {
      j := i;
    }
  }

  /** The first target met, over the current node, ends a walk no later than any other. */
  lemma TargetIsLeast(s: Search, tree: Tree, order: seq<nat>, head: nat, k: nat, q: seq<nat>)
    requires Seeded(s, tree) && NoTarget(s, tree) && Increasing(s, tree, order) && 0 < head <= |order|
    requires AllExpanded(s, tree, Elements(order[..head - 1]))
    requires AllRooted(s, tree, Elements(order[..head]))
    requires var u := order[head - 1];
      Expanded(s, tree, u, k) && k < |s.succ[u]| && Ascending(s.succ[u])
    requires TargetWalk(s, q)
    ensures var u := order[head - 1]; AtMost(s.sources, tree[u] + [s.succ[u][k]], q)
  {
    var u := order[head - 1];
    var j := Pending(s, tree, Elements(order[..head - 1]), q, 0);
    CurrentBefore(s, tree, order, head, q[j]);
    assert Rooted(s, tree, Elements(order[..head]), u);
    AtMostTransitive(s.sources, tree[u], tree[q[j]], q[..j + 1]);
    NextStepLeast(s, tree, u, k, q, j);
  }

  lemma NextStepLeast(s: Search, tree: Tree, u: nat, k: nat, q: seq<nat>, j: nat)
    requires NoTarget(s, tree) && Expanded(s, tree, u, k) && k < |s.succ[u]| && Ascending(s.succ[u])
    requires tree[u] != [] && tree[u][|tree[u]| - 1] == u
    requires TargetWalk(s, q) && j < |q| - 1 && AtMost(s.sources, tree[u], q[..j + 1])
    ensures AtMost(s.sources, tree[u] + [s.succ[u][k]], q)
  {
    if j == |q| - 2 {
      var x := q[|q| - 1];
      assert q == q[..j + 1] + [x];
      if tree[u] == q[..j + 1] {
        LastStepLeast(s, tree, u, k, q);
      } else {
        EarlierExtended(s.sources, tree[u], q[..j + 1], s.succ[u][k], x);
      }
    }
  }

  lemma PrefixElements(order: seq<nat>, h: nat)
    requires h <= |order|
    ensures forall l :: 0 <= l < h ==> order[l] in Elements(order[..h])
  {
    forall l | 0 <= l < h ensures order[l] in Elements(order[..h]) { assert order[..h][l] == order[l]; }
  }

  lemma CurrentBefore(s: Search, tree: Tree, order: seq<nat>, head: nat, v: nat)
    requires Increasing(s, tree, order) && 0 < head <= |order|
    requires v in tree && v !in Elements(order[..head - 1])
    ensures order[head - 1] in tree && AtMost(s.sources, tree[order[head - 1]], tree[v])
  {
    PrefixElements(order, head - 1);
    var l :| 0 <= l < |order| && order[l] == v;
    assert order[head - 1] in tree && order[l] in tree;
  }

  lemma LastStepLeast(s: Search, tree: Tree, u: nat, k: nat, q: seq<nat>)
    requires NoTarget(s, tree) && Expanded(s, tree, u, k) && k < |s.succ[u]| && Ascending(s.succ[u])
    requires TargetWalk(s, q) && |q| > 1 && tree[u] == q[..|q| - 1] && q[|q| - 2] == u
    ensures AtMost(s.sources, tree[u] + [s.succ[u][k]], q)
  {
    var x := q[|q| - 1];
    assert q == q[..|q| - 1] + [x];
    assert Link(s.succ, q[|q| - 2], q[|q| - 1]);
    var i :| 0 <= i < |s.succ[u]| && s.succ[u][i] == x;
    assert i >= k;
    if i > k { EarlierByLastStep(s.sources, tree[u], s.succ[u][k], x); }
  }

  // ---------------------------------------------------------------------
  // The search, step by step
  // ---------------------------------------------------------------------

  ghost predicate WellFormed(s: Search) {
    && (forall u :: 0 <= u < |s.succ| ==> Ascending(s.succ[u]) && forall x :: x in s.succ[u] ==> x < |s.succ|)
    && (forall v :: v in s.sources ==> v < |s.succ| && v !in s.targets)
  }

  /** Between two dequeues: the first `head` nodes of `order` are expanded. */
  ghost predicate Outer(s: Search, tree: Tree, order: seq<nat>, head: nat) {
    && head <= |order|
    && Seeded(s, tree) && Increasing(s, tree, order) && NoTarget(s, tree)
    && AllRooted(s, tree, Elements(order[..head]))
    && AllExpanded(s, tree, Elements(order[..head]))
  }

  /** While the successors of the last dequeued node are scanned, `k` of them done. */
  ghost predicate Inner(s: Search, tree: Tree, order: seq<nat>, head: nat, k: nat) {
    && 0 < head <= |order|
    && Seeded(s, tree) && Increasing(s, tree, order) && NoTarget(s, tree)
    && AllRooted(s, tree, Elements(order[..head]))
    && AllExpanded(s, tree, Elements(order[..head - 1]))
    && Expanded(s, tree, order[head - 1], k) && ChildrenBelow(s, tree, order[head - 1], k)
  }

  lemma RecordedWalk(s: Search, tree: Tree, order: seq<nat>, done: set<nat>, u: nat)
    requires AllRooted(s, tree, done) && Increasing(s, tree, order) && u in order
    ensures u in tree && Rooted(s, tree, done, u)
  {
  }

  lemma AllExpandedAppend(s: Search, tree: Tree, done: set<nat>, u: nat)
    requires AllExpanded(s, tree, done) && u < |s.succ| && Expanded(s, tree, u, |s.succ[u]|)
    ensures AllExpanded(s, tree, done + {u})
  {
  }

  lemma RootsGrown(s: Search, tree: Tree, u: nat, k: nat)
    requires Seeded(s, tree) && NoTarget(s, tree) && u in tree
    requires u < |s.succ| && k < |s.succ[u]| && s.succ[u][k] !in tree && s.succ[u][k] !in s.removed && s.succ[u][k] !in s.targets
    requires ChildrenBelow(s, tree, u, k)
    ensures var x := s.succ[u][k]; var grown := tree[x := tree[u] + [x]];
      Seeded(s, grown) && NoTarget(s, grown) && ChildrenBelow(s, grown, u, k + 1) && x !in s.sources
  {
    assert s.succ[u][..k + 1] == s.succ[u][..k] + [s.succ[u][k]];
  }

  lemma Dequeued(s: Search, tree: Tree, order: seq<nat>, head: nat)
    requires Outer(s, tree, order, head) && head < |order|
    ensures Inner(s, tree, order, head + 1, 0)
  {
    hide Seeded, Increasing, AllRooted, AllExpanded, NoTarget, ChildrenBelow;
    var u := order[head];
    OrderDistinct(s, tree, order);
    assert u !in Elements(order[..head]);
    RecordedWalk(s, tree, order, Elements(order[..head]), u);
    NoChildrenYet(s, tree, Elements(order[..head]), u);
    ElementsAppend(order[..head], u);
    assert order[..head + 1] == order[..head] + [u];
  }

  lemma Scanned(s: Search, tree: Tree, order: seq<nat>, head: nat, k: nat)
    requires Inner(s, tree, order, head, k) && k == |s.succ[order[head - 1]]|
    ensures Outer(s, tree, order, head)
  {
    hide Seeded, Increasing, AllRooted, AllExpanded, NoTarget, ChildrenBelow;
    AllExpandedAppend(s, tree, Elements(order[..head - 1]), order[head - 1]);
    ElementsAppend(order[..head - 1], order[head - 1]);
    assert order[..head] == order[..head - 1] + [order[head - 1]];
  }

  lemma Skipped(s: Search, tree: Tree, order: seq<nat>, head: nat, k: nat)
    requires Inner(s, tree, order, head, k)
    requires var u := order[head - 1]; k < |s.succ[u]| && (s.succ[u][k] in s.removed || s.succ[u][k] in tree)
    ensures Inner(s, tree, order, head, k + 1)
  {
    hide Seeded, Increasing, AllRooted, AllExpanded, NoTarget;
    var u := order[head - 1];
    if s.succ[u][k] in tree { KnownNode(s, tree, order, head, s.succ[u][k]); }
    assert s.succ[u][..k + 1] == s.succ[u][..k] + [s.succ[u][k]];
  }

  lemma Discovered(s: Search, tree: Tree, order: seq<nat>, head: nat, k: nat)
    requires WellFormed(s) && Inner(s, tree, order, head, k)
    requires var u := order[head - 1];
      k < |s.succ[u]| && s.succ[u][k] !in s.removed && s.succ[u][k] !in tree && s.succ[u][k] !in s.targets
    ensures var u := order[head - 1]; var x := s.succ[u][k];
      Inner(s, tree[x := tree[u] + [x]], order + [x], head, k + 1)
  {
    hide AllRooted, AllExpanded, Earlier, Increasing, Seeded, NoTarget, ChildrenBelow;
    var u := order[head - 1];
    var x := s.succ[u][k];
    var q := tree[u] + [x];
    PrefixElements(order, head);
    forall v | v in tree ensures Earlier(s.sources, tree[v], q) {
      NewNodeLast(s, tree, order, head, k, v);
    }
    IncreasingGrown(s, tree, order, x, q);
    RootsGrown(s, tree, u, k);
    RootedGrown(s, tree, Elements(order[..head]), u, x);
    AllExpandedGrown(s, tree, Elements(order[..head - 1]), x, q);
    ExpandedGrown(s, tree, u, k, x, q);
    assert s.succ[u][..k + 1] == s.succ[u][..k] + [x];
    assert (order + [x])[..head] == order[..head] && (order + [x])[..head - 1] == order[..head - 1];
  }

  /** The first target met ends the least target walk, and that walk is simple. */
  lemma Found(s: Search, tree: Tree, order: seq<nat>, head: nat, k: nat)
    requires WellFormed(s) && Inner(s, tree, order, head, k)
    requires var u := order[head - 1];
      k < |s.succ[u]| && s.succ[u][k] !in s.removed && s.succ[u][k] !in tree && s.succ[u][k] in s.targets
    ensures var u := order[head - 1]; var q := tree[u] + [s.succ[u][k]];
      LeastTargetWalk(s, q)
  {
    var u := order[head - 1];
    var q := tree[u] + [s.succ[u][k]];
    FoundWalk(s, tree, order, head, k);
    hide Inner, WellFormed, TargetWalk, AtMost;
    forall r | TargetWalk(s, r) ensures AtMost(s.sources, q, r) {
      TargetIsLeast(s, tree, order, head, k, r);
    }
  }

  lemma FoundWalk(s: Search, tree: Tree, order: seq<nat>, head: nat, k: nat)
    requires WellFormed(s) && Inner(s, tree, order, head, k)
    requires var u := order[head - 1];
      k < |s.succ[u]| && s.succ[u][k] !in s.removed && s.succ[u][k] !in tree && s.succ[u][k] in s.targets
    ensures var u := order[head - 1]; var q := tree[u] + [s.succ[u][k]];
      TargetWalk(s, q) && Distinct(q)
  {
    hide Increasing, AllExpanded, Seeded, ChildrenBelow, Earlier;
    var u := order[head - 1];
    assert Rooted(s, tree, Elements(order[..head]), u);
    WalkExtended(s, tree[u], s.succ[u][k]);
  }

  ghost predicate LeastTargetWalk(s: Search, q: seq<nat>) {
    && TargetWalk(s, q) && Distinct(q)
    && (forall r :: TargetWalk(s, r) ==> AtMost(s.sources, q, r))
  }

  lemma Exhausted(s: Search, tree: Tree, order: seq<nat>)
    requires Outer(s, tree, order, |order|)
    ensures forall q :: !TargetWalk(s, q)
    ensures forall q :: Walk(s, q) ==> q[|q| - 1] in tree
  {
    assert order[..|order|] == order;
    assert tree.Keys == Elements(order);
    forall q | Walk(s, q) ensures q[|q| - 1] in tree && !TargetWalk(s, q) { ExhaustedMeansNone(s, tree, q); }
  }

  // ---------------------------------------------------------------------
  // A least walk exists
  // ---------------------------------------------------------------------

  ghost predicate Shortest(s: Search, q: seq<nat>) {
    TargetWalk(s, q) && forall r :: TargetWalk(s, r) ==> |q| <= |r|
  }

  lemma {:induction false} ShortestExists(s: Search, q: seq<nat>) returns (r: seq<nat>)
    requires TargetWalk(s, q)
    ensures Shortest(s, r)
    decreases |q|
  {
    if t :| TargetWalk(s, t) && |t| < |q| {
      r := ShortestExists(s, t);
    } else {
      r := q;
    }
  }

  /** A repeated node could be cut out. */
  lemma ShortestDistinct(s: Search, q: seq<nat>)
    requires Shortest(s, q)
    ensures Distinct(q)
  {
    hide TargetWalk;
    forall i, j | 0 <= i < j < |q| ensures q[i] != q[j] {
      if q[i] == q[j] { LoopCut(s, q, i, j); }
    }
  }

  /** A walk that meets a node twice is a walk without the loop. */
  lemma LoopCut(s: Search, q: seq<nat>, i: nat, j: nat)
    requires TargetWalk(s, q) && i < j < |q| && q[i] == q[j]
    ensures TargetWalk(s, q[..i] + q[j..])
  {
    hide Link;
    var r := q[..i] + q[j..];
    forall k | 0 <= k < |r| ensures r[k] == q[if k < i then k else k + j - i] {}
    forall k | 0 < k < |r| ensures Link(s.succ, r[k - 1], r[k]) {
      if k < i {
        assert Link(s.succ, q[k - 1], q[k]);
      } else if k == i {
        assert Link(s.succ, q[i - 1], q[i]);
      } else {
        assert Link(s.succ, q[k + j - i - 1], q[k + j - i]);
      }
    }
  }

  /** Among the shortest walks `q` is first as far as `k` steps decide. */
  ghost predicate FirstUpTo(s: Search, q: seq<nat>, k: nat) {
    && Shortest(s, q) && k <= |q|
    && forall r :: TargetWalk(s, r) && |r| == |q| ==>
         q[..k] == r[..k] || exists j: nat :: j < k && DiffersFirstAt(s.sources, q, r, j)
  }

  /** How a step compares: sources by position, later nodes by index. */
  function StepRank(sources: seq<nat>, k: nat, x: nat): nat {
    if k == 0 then IndexOf(sources, x) else x
  }

  lemma {:induction false} SmallestStep(s: Search, q: seq<nat>, k: nat, t: seq<nat>) returns (r: seq<nat>)
    requires FirstUpTo(s, q, k) && k < |q| && TargetWalk(s, t) && |t| == |q| && t[..k] == q[..k]
    ensures TargetWalk(s, r) && |r| == |q| && r[..k] == q[..k]
    ensures forall u :: TargetWalk(s, u) && |u| == |q| && u[..k] == q[..k] ==>
      StepRank(s.sources, k, r[k]) <= StepRank(s.sources, k, u[k])
    decreases StepRank(s.sources, k, t[k])
  {
    if u :| TargetWalk(s, u) && |u| == |q| && u[..k] == q[..k] && StepRank(s.sources, k, u[k]) < StepRank(s.sources, k, t[k]) {
      r := SmallestStep(s, q, k, u);
    } else {
      r := t;
    }
  }

  lemma RankDecides(s: Search, q: seq<nat>, r: seq<nat>, k: nat)
    requires TargetWalk(s, q) && TargetWalk(s, r) && k < |q| && k < |r| && q[..k] == r[..k]
    requires StepRank(s.sources, k, q[k]) <= StepRank(s.sources, k, r[k])
    ensures q[..k + 1] == r[..k + 1] || DiffersFirstAt(s.sources, q, r, k)
  {
    forall i | 0 <= i < k ensures q[i] == r[i] { assert q[..k][i] == r[..k][i]; }
    if k == 0 && IndexOf(s.sources, q[0]) == IndexOf(s.sources, r[0]) { assert q[0] == r[0]; }
    if q[k] == r[k] { assert q[..k + 1] == q[..k] + [q[k]] && r[..k + 1] == r[..k] + [r[k]]; }
  }

  lemma OneStepDecided(s: Search, q: seq<nat>, k: nat) returns (r: seq<nat>)
    requires FirstUpTo(s, q, k) && k < |q|
    ensures |r| == |q| && FirstUpTo(s, r, k + 1)
  {
    r := SmallestStep(s, q, k, q);
    forall u | TargetWalk(s, u) && |u| == |r|
      ensures r[..k + 1] == u[..k + 1] || exists j: nat :: j < k + 1 && DiffersFirstAt(s.sources, r, u, j)
    {
      if u[..k] == q[..k] {
        RankDecides(s, r, u, k);
      } else {
        var j: nat :| j < k && DiffersFirstAt(s.sources, q, u, j);
        forall i | 0 <= i <= j ensures r[i] == q[i] { assert r[..k][i] == q[..k][i]; }
        assert DiffersFirstAt(s.sources, r, u, j);
      }
    }
  }

  lemma {:induction false} AllStepsDecided(s: Search, q: seq<nat>, k: nat) returns (r: seq<nat>)
    requires FirstUpTo(s, q, k)
    ensures |r| == |q| && FirstUpTo(s, r, |r|)
    decreases |q| - k
  {
    if k == |q| {
      r := q;
    } else {
      var next := OneStepDecided(s, q, k);
      r := AllStepsDecided(s, next, k + 1);
    }
  }

  /** Whenever a target can be reached there is a least walk to one. */
  lemma LeastTargetWalkExists(s: Search, q: seq<nat>) returns (r: seq<nat>)
    requires TargetWalk(s, q)
    ensures LeastTargetWalk(s, r)
  {
    var short := ShortestExists(s, q);
    r := AllStepsDecided(s, short, 0);
    ShortestDistinct(s, r);
    forall t | TargetWalk(s, t) ensures AtMost(s.sources, r, t) {
      if |t| == |r| {
        assert r[..|r|] == r && t[..|t|] == t;
      }
    }
  }

  /** The least target walk is unique. */
  lemma LeastTargetWalkUnique(s: Search, q: seq<nat>, r: seq<nat>)
    requires LeastTargetWalk(s, q) && LeastTargetWalk(s, r)
    ensures q == r
  {
    if q != r {
      EarlierTransitive(s.sources, q, r, q);
      EarlierIrreflexive(s.sources, q);
    }
  }

  /** With ascending sources it is the lexicographically least among the shortest. */
  lemma LeastIsLexicographic(s: Search, q: seq<nat>, r: seq<nat>)
    requires Ascending(s.sources) && LeastTargetWalk(s, q) && TargetWalk(s, r) && r != q
    ensures |q| < |r| || (|q| == |r| && LexLess((x: nat, y: nat) => x < y, q, r))
  {
    if |q| == |r| {
      var k: nat :| DiffersFirstAt(s.sources, q, r, k);
      LexFromFirstDifference(q, r, k);
    }
  }

  lemma {:induction false} LexFromFirstDifference(q: seq<nat>, r: seq<nat>, k: nat)
    requires k < |q| == |r| && (forall i :: 0 <= i < k ==> q[i] == r[i]) && q[k] < r[k]
    ensures LexLess((x: nat, y: nat) => x < y, q, r)
  {
    if k != 0 { LexFromFirstDifference(q[1..], r[1..], k - 1); }
  }
}
