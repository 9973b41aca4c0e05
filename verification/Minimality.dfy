/** Reverse deletion: the pass that leaves only load-bearing members, used after both solvers. */
module Minimality {
  import opened Collections
  import opened BreadthFirst
  import opened Containment
  import opened ResidualPaths
  import opened CutVerifier

  /** Nothing strictly smaller is feasible. */
  ghost predicate InclusionMinimal(p: Problem, c: set<nat>)
    requires p.Valid()
  {
    forall d :: d < c ==> !Feasible(p, d)
  }

  /** The feasible family is convex: whatever lies between two feasible sets is feasible. */
  lemma Sandwich(p: Problem, low: set<nat>, mid: set<nat>, high: set<nat>)
    requires p.Valid() && low <= mid <= high && Feasible(p, low) && Feasible(p, high)
    ensures Feasible(p, mid)
  {
    SubsetCount(mid, high);
    SumMonotone(p.weights, mid, high);
    if Connects(p, mid) { ConnectsAntitone(p, low, mid); }
  }

  function WithoutIndex(s: seq<nat>, i: nat): seq<nat>
    requires i < |s|
  {
    s[..i] + s[i + 1..]
  }

  lemma WithoutIndexFacts(s: seq<nat>, i: nat)
    requires i < |s| && Ascending(s)
    ensures Ascending(WithoutIndex(s, i)) && Elements(WithoutIndex(s, i)) == Elements(s) - {s[i]}
    ensures forall j :: 0 <= j < i ==> WithoutIndex(s, i)[j] == s[j]
  {
    var r := WithoutIndex(s, i);
    forall x | x in Elements(s) && x != s[i] ensures x in Elements(r) {
      var j :| 0 <= j < |s| && s[j] == x;
      assert r[if j < i then j else j - 1] == x;
    }
  }

  /** The deletion pass from position `i` on: drop a member when the rest still passes the verifier. */
  ghost function ReverseDeletion(p: Problem, members: seq<nat>, i: nat): seq<nat>
    requires p.Valid() && forall j :: 0 <= j < |members| ==> members[j] < p.NodeCount()
    decreases |members| - i
  {
    if i >= |members| then members
    else if p.IsMandatory(members[i]) then ReverseDeletion(p, members, i + 1)
    else if Feasible(p, Elements(WithoutIndex(members, i))) then ReverseDeletion(p, WithoutIndex(members, i), i)
    else ReverseDeletion(p, members, i + 1)
  }

  /** `v` cannot be dropped from `c`. */
  ghost predicate Bears(p: Problem, c: set<nat>, v: nat)
    requires p.Valid()
  {
    v in p.Mandatory() || !Feasible(p, c - {v})
  }

  /** Starting from a feasible set the pass ends in a feasible set of load-bearing members. */
  lemma {:induction false} DeletionBears(p: Problem, members: seq<nat>, i: nat)
    requires p.Valid() && forall j :: 0 <= j < |members| ==> members[j] < p.NodeCount()
    requires Ascending(members) && i <= |members| && Feasible(p, Elements(members))
    requires forall j :: 0 <= j < i ==> Bears(p, Elements(members), members[j])
    ensures var r := ReverseDeletion(p, members, i);
      && Ascending(r) && Elements(r) <= Elements(members) && Feasible(p, Elements(r))
      && forall v :: v in r ==> Bears(p, Elements(r), v)
    decreases |members| - i
  {
    hide Feasible;
    if i < |members| {
      var v, trial := members[i], WithoutIndex(members, i);
      WithoutIndexFacts(members, i);
      if p.IsMandatory(v) {
        assert v in p.Mandatory();
        DeletionBears(p, members, i + 1);
      } else if Feasible(p, Elements(trial)) {
        forall j | 0 <= j < i ensures Bears(p, Elements(trial), trial[j]) {
          StillBears(p, Elements(members), v, members[j]);
        }
        DeletionBears(p, trial, i);
      } else {
        assert v in members;
        DeletionBears(p, members, i + 1);
      }
    }
  }

  /** A member that bears load still does after another one is dropped. */
  lemma StillBears(p: Problem, c: set<nat>, dropped: nat, v: nat)
    requires p.Valid() && Feasible(p, c) && Bears(p, c, v)
    ensures Bears(p, c - {dropped}, v)
  {
    if v !in p.Mandatory() && Feasible(p, c - {dropped} - {v}) {
      Sandwich(p, c - {dropped} - {v}, c - {v}, c);
    }
  }

  lemma BearsMeansMinimal(p: Problem, c: set<nat>)
    requires p.Valid() && Feasible(p, c) && forall v :: v in c ==> Bears(p, c, v)
    ensures InclusionMinimal(p, c)
  {
    forall d | d < c ensures !Feasible(p, d) {
      if Feasible(p, d) {
        var v :| v in c && v !in d;
        Sandwich(p, d, c - {v}, c);
      }
    }
  }

  /** Started from any list, the pass only ever drops members and never a mandatory one, and either
      changes nothing or ends in a set the verifier accepted. */
  lemma {:induction false} DeletionKeeps(p: Problem, members: seq<nat>, i: nat)
    requires p.Valid() && Ascending(members) && forall j :: 0 <= j < |members| ==> members[j] < p.NodeCount()
    ensures var r := ReverseDeletion(p, members, i);
      && Ascending(r) && Elements(r) <= Elements(members)
      && p.Mandatory() * Elements(members) <= Elements(r)
      && (r == members || Feasible(p, Elements(r)))
    decreases |members| - i
  {
    if i < |members| {
      WithoutIndexFacts(members, i);
      if p.IsMandatory(members[i]) {
        DeletionKeeps(p, members, i + 1);
      } else if Feasible(p, Elements(WithoutIndex(members, i))) {
        assert members[i] !in p.Mandatory();
        DeletionKeeps(p, WithoutIndex(members, i), i);
      } else {
        DeletionKeeps(p, members, i + 1);
      }
    }
  }

  /** What has been kept of the members before `v`, and all the members behind it. */
  ghost function Around(kept: seq<nat>, members: seq<nat>, v: nat): set<nat> {
    (set u | u in kept && u < v) + (set u | u in members && u > v)
  }

  lemma AroundIsRest(kept: seq<nat>, members: seq<nat>, i: nat)
    requires Ascending(members) && i < |members| && Elements(kept) <= Elements(members)
    requires forall j :: 0 <= j < i ==> members[j] in kept
    ensures Around(kept, members, members[i]) == Elements(WithoutIndex(members, i))
  {
    WithoutIndexFacts(members, i);
    var around := Around(kept, members, members[i]);
    forall u | u in members && u != members[i] ensures u in around {
      var j :| 0 <= j < |members| && members[j] == u;
    }
    assert forall u :: u in kept ==> u in Elements(members);
  }

  lemma AroundLater(kept: seq<nat>, members: seq<nat>, i: nat, v: nat)
    requires Ascending(members) && i < |members| && v > members[i]
    ensures Around(kept, WithoutIndex(members, i), v) == Around(kept, members, v)
  {
    WithoutIndexFacts(members, i);
    assert forall u :: u in WithoutIndex(members, i) <==> u in Elements(WithoutIndex(members, i));
    assert forall u :: u in members <==> u in Elements(members);
  }

  /** A member is kept exactly when it is mandatory, or the members kept before it and all those behind it do not pass. */
  ghost predicate Decided(p: Problem, kept: seq<nat>, members: seq<nat>, v: nat)
    requires p.Valid()
  {
    v in kept <==> v in p.Mandatory() || !Feasible(p, Around(kept, members, v))
  }

  ghost predicate DecidedFrom(p: Problem, kept: seq<nat>, members: seq<nat>, i: nat)
    requires p.Valid() && i <= |members|
  {
    (forall j :: 0 <= j < i ==> members[j] in kept) && (forall j :: i <= j < |members| ==> Decided(p, kept, members, members[j]))
  }

  lemma DecidedDropped(p: Problem, kept: seq<nat>, members: seq<nat>, i: nat)
    requires p.Valid() && Ascending(members) && i < |members| && members[i] !in p.Mandatory()
    requires Elements(kept) <= Elements(WithoutIndex(members, i)) && Feasible(p, Elements(WithoutIndex(members, i)))
    requires DecidedFrom(p, kept, WithoutIndex(members, i), i)
    ensures DecidedFrom(p, kept, members, i)
  {
    hide Feasible, Around;
    var trial := WithoutIndex(members, i);
    WithoutIndexFacts(members, i);
    assert forall j :: 0 <= j < i ==> trial[j] in kept && trial[j] == members[j];
    AroundIsRest(kept, members, i);
    assert members[i] !in kept by { assert members[i] !in Elements(trial); }
    forall j | i < j < |members| ensures Decided(p, kept, members, members[j]) {
      AroundLater(kept, members, i, members[j]);
      assert trial[j - 1] == members[j];
    }
  }

  lemma DecidedKept(p: Problem, kept: seq<nat>, members: seq<nat>, i: nat)
    requires p.Valid() && Ascending(members) && i < |members| && Elements(kept) <= Elements(members)
    requires members[i] in p.Mandatory() || !Feasible(p, Elements(WithoutIndex(members, i)))
    requires DecidedFrom(p, kept, members, i + 1)
    ensures DecidedFrom(p, kept, members, i)
  {
    hide Feasible, Around, WithoutIndex;
    AroundIsRest(kept, members, i);
  }

  lemma {:induction false} DeletionDecides(p: Problem, members: seq<nat>, i: nat)
    requires p.Valid() && Ascending(members) && forall j :: 0 <= j < |members| ==> members[j] < p.NodeCount()
    requires i <= |members|
    ensures DecidedFrom(p, ReverseDeletion(p, members, i), members, i)
    decreases |members| - i
  {
    if i < |members| {
      var trial := WithoutIndex(members, i);
      DeletionKeeps(p, members, i);
      WithoutIndexFacts(members, i);
      assert members[i] in p.Mandatory() <==> p.IsMandatory(members[i]);
      if !p.IsMandatory(members[i]) && Feasible(p, Elements(trial)) {
        DeletionKeeps(p, trial, i);
        DeletionDecides(p, trial, i);
        assert ReverseDeletion(p, members, i) == ReverseDeletion(p, trial, i);
        hide *;
        DecidedDropped(p, ReverseDeletion(p, members, i), members, i);
      } else {
        DeletionDecides(p, members, i + 1);
        assert ReverseDeletion(p, members, i) == ReverseDeletion(p, members, i + 1);
        hide *;
        DecidedKept(p, ReverseDeletion(p, members, i), members, i);
      }
    } else {
      assert ReverseDeletion(p, members, i) == members;
    }
  }

  /** The pass goes through the members in ascending order: one is kept exactly when it is mandatory, or the members kept
      before it and all those behind it do not pass. */
  lemma DeletionExact(p: Problem, members: seq<nat>, v: nat)
    requires p.Valid() && Ascending(members) && forall j :: 0 <= j < |members| ==> members[j] < p.NodeCount()
    requires v in members
    ensures var r := ReverseDeletion(p, members, 0);
            v in r <==> v in p.Mandatory() || !Feasible(p, (set u | u in r && u < v) + (set u | u in members && u > v))
  {
    DeletionDecides(p, members, 0);
    var j :| 0 <= j < |members| && members[j] == v;
    hide ReverseDeletion, Feasible;
    assert Decided(p, ReverseDeletion(p, members, 0), members, members[j]);
  }

  /** An optimum has nothing to delete. */
  lemma OptimumUnchanged(p: Problem, members: seq<nat>)
    requires p.Valid() && Ascending(members) && UniqueOptimum(p, Elements(members))
    requires forall j :: 0 <= j < |members| ==> members[j] < p.NodeCount()
    ensures ReverseDeletion(p, members, 0) == members
  {
    DeletionBears(p, members, 0);
    var r := ReverseDeletion(p, members, 0);
    var a, b := Elements(r), Elements(members);
    if a != b {
      SupersetIsWorse(p, a, b, p.minimizeProtected);
      ObjectiveTransitive(ObjectiveOf(p, a), ObjectiveOf(p, b), ObjectiveOf(p, a), p.minimizeProtected);
      ObjectiveIrreflexive(ObjectiveOf(p, a), p.minimizeProtected);
    }
    AscendingUnique(r, members);
  }

  /** Minimality restoration on a sorted member list. */
  method RestoreMinimality(p: Problem, sorted: seq<nat>) returns (members: seq<nat>)
    requires p.Valid() && Ascending(sorted) && forall j :: 0 <= j < |sorted| ==> sorted[j] < p.NodeCount()
    ensures members == ReverseDeletion(p, sorted, 0)
  {
    members := sorted;
    var i := 0;
    while i < |members|
      invariant i <= |members| && Ascending(members) && forall j :: 0 <= j < |members| ==> members[j] < p.NodeCount()
      invariant ReverseDeletion(p, members, i) == ReverseDeletion(p, sorted, 0)
      decreases |members| - i
    {
      if p.IsMandatory(members[i]) {
        i := i + 1;
        continue;
      }
      WithoutIndexFacts(members, i);
      var trial := DropCandidate(members, i);
      var verdict := VerifyCut(p, trial);
      if verdict.Accepted? {
        members := trial;
      } else {
        i := i + 1;
      }
    }
  }

  /** Copies every member but the candidate. */
  method DropCandidate(members: seq<nat>, i: nat) returns (trial: seq<nat>)
    requires i < |members| && Ascending(members)
    ensures trial == WithoutIndex(members, i)
  {
    trial := [];
    for k := 0 to |members|
      invariant trial == if k <= i then members[..k] else members[..i] + members[i + 1..k]
    {
      if members[k] != members[i] {
        trial := trial + [members[k]];
      }
    }
  }
}
