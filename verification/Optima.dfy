/** What the optimum is, in terms of the nodes it holds: the declared preferences one after the other, and the first node
    on which two equally good sets differ. */
module Optima {
  import opened Collections
  import opened Containment
  import opened Resources

  function Obligations(p: Problem, c: set<nat>): set<nat> {
    c * Marked(p.isProtected)
  }

  /** `c` holds the first node on which the two differ. */
  ghost predicate FirstInLeft(c: set<nat>, d: set<nat>) {
    exists v :: v in c - d && forall u :: u in d - c ==> v < u
  }

  /** Fewer obligations if they are to be spared, then less weight, then fewer nodes, then the earlier node. */
  ghost predicate Preferable(p: Problem, c: set<nat>, d: set<nat>) {
    if p.minimizeProtected && |Obligations(p, c)| != |Obligations(p, d)| then |Obligations(p, c)| < |Obligations(p, d)|
    else if Weight(p, c) != Weight(p, d) then Weight(p, c) < Weight(p, d)
    else if |c| != |d| then |c| < |d|
    else FirstInLeft(c, d)
  }

  lemma {:induction false} FlagsCount(mask: seq<bool>, c: set<nat>)
    ensures SumOver(Flags(mask), c) == |c * Marked(mask)|
  {
    if mask == [] {
      assert c * Marked(mask) == {};
    } else {
      var n := |mask| - 1;
      FlagsCount(mask[..n], c);
      assert Flags(mask)[..n] == Flags(mask[..n]);
      var rest := c * Marked(mask[..n]);
      assert c * Marked(mask) == if mask[n] && n in c then rest + {n} else rest;
    }
  }

  lemma FirstBefore(a: seq<nat>, b: seq<nat>)
    requires Ascending(a) && Ascending(b) && a != [] && b != [] && a[0] < b[0]
    ensures FirstInLeft(Elements(a), Elements(b)) && !FirstInLeft(Elements(b), Elements(a))
  {
    assert a[0] in a && forall u :: u in b ==> a[0] < u;
    assert a[0] in Elements(a) - Elements(b);
  }

  lemma TailDiffers(a: seq<nat>, b: seq<nat>)
    requires Ascending(a) && Ascending(b) && a != [] && b != [] && a[0] == b[0]
    ensures Elements(a) - Elements(b) == Elements(a[1..]) - Elements(b[1..])
    ensures Ascending(a[1..])
  {
    assert a == [a[0]] + a[1..] && b == [b[0]] + b[1..];
    assert forall x :: x in a[1..] ==> x > a[0];
    assert forall x :: x in b[1..] ==> x > b[0];
  }

  lemma SameFirst(c: set<nat>, d: set<nat>, e: set<nat>, f: set<nat>)
    requires c - d == e - f && d - c == f - e
    ensures FirstInLeft(c, d) == FirstInLeft(e, f)
  {
    if v :| v in c - d && forall u :: u in d - c ==> v < u { assert v in e - f; }
    if v :| v in e - f && forall u :: u in f - e ==> v < u { assert v in c - d; }
  }

  /** Signatures of equal length compare by the first node on which the sets differ. */
  lemma {:induction false} SignatureFirst(p: Problem, a: seq<nat>, b: seq<nat>)
    requires StrictlySorted(p.ids) && Ascending(a) && Ascending(b) && |a| == |b| && a != b
    requires (forall i :: 0 <= i < |a| ==> a[i] < |p.ids|) && (forall i :: 0 <= i < |b| ==> b[i] < |p.ids|)
    ensures SignatureLess(Signature(p, a), Signature(p, b)) <==> FirstInLeft(Elements(a), Elements(b))
  {
    hide Elements, FirstInLeft, SignatureLess;
    HeadsCompare(p, a, b);
    if a[0] == b[0] {
      TailDiffers(a, b);
      TailDiffers(b, a);
      assert a == [a[0]] + a[1..] && b == [b[0]] + b[1..];
      SameFirst(Elements(a), Elements(b), Elements(a[1..]), Elements(b[1..]));
      SignatureFirst(p, a[1..], b[1..]);
    } else if a[0] < b[0] {
      FirstBefore(a, b);
    } else {
      FirstBefore(b, a);
    }
  }

  lemma HeadsCompare(p: Problem, a: seq<nat>, b: seq<nat>)
    requires StrictlySorted(p.ids) && a != [] && b != []
    requires (forall i :: 0 <= i < |a| ==> a[i] < |p.ids|) && (forall i :: 0 <= i < |b| ==> b[i] < |p.ids|)
    ensures SignatureLess(Signature(p, a), Signature(p, b)) ==
      if a[0] == b[0] then SignatureLess(Signature(p, a[1..]), Signature(p, b[1..])) else a[0] < b[0]
  {
    IdOrder();
    hide IdLess;
    assert Signature(p, a)[1..] == Signature(p, a[1..]) && Signature(p, b)[1..] == Signature(p, b[1..]);
    assert a[0] < b[0] ==> IdLess(p.ids[a[0]], p.ids[b[0]]);
    assert b[0] < a[0] ==> IdLess(p.ids[b[0]], p.ids[a[0]]);
  }

  lemma InRangeMembers(p: Problem, c: set<nat>)
    requires p.Valid() && forall v :: v in c ==> v < p.NodeCount()
    ensures var s := MembersBelow(c, |p.ids|);
            Elements(s) == c && |s| == |c| && Ascending(s) && forall i :: 0 <= i < |s| ==> s[i] < p.NodeCount()
  {
    var s := MembersBelow(c, |p.ids|);
    assert Elements(s) == c;
    SortedDistinct(s);
    assert Distinct(s);
  }

  lemma ObjectiveMeans(p: Problem, c: set<nat>, d: set<nat>)
    requires p.Valid() && c != d && forall v :: v in c + d ==> v < p.NodeCount()
    ensures ObjectiveLess(ObjectiveOf(p, c), ObjectiveOf(p, d), p.minimizeProtected) <==> Preferable(p, c, d)
  {
    assert forall v :: v in c || v in d ==> v in c + d;
    FlagsCount(p.isProtected, c);
    FlagsCount(p.isProtected, d);
    InRangeMembers(p, c);
    InRangeMembers(p, d);
    hide SignatureLess, FirstInLeft, MembersBelow, Elements, Weight;
    if |c| == |d| { SignatureFirst(p, MembersBelow(c, |p.ids|), MembersBelow(d, |p.ids|)); }
  }

  /** The optimum is the feasible set preferable to every other one. */
  lemma OptimumMeans(p: Problem, c: set<nat>)
    requires p.Valid()
    ensures UniqueOptimum(p, c) <==> Feasible(p, c) && forall d :: Feasible(p, d) && d != c ==> Preferable(p, c, d)
  {
    hide ObjectiveLess, ObjectiveOf, Preferable;
    forall d | Feasible(p, d) && Feasible(p, c) && d != c
      ensures ObjectiveLess(ObjectiveOf(p, c), ObjectiveOf(p, d), p.minimizeProtected) <==> Preferable(p, c, d)
    {
      ObjectiveMeans(p, c, d);
    }
  }
}
