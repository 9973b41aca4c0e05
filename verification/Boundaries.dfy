/** Containment boundaries: members in canonical order, and the set questions asked of them. */
module Boundaries {
  import opened Collections
  import opened Resources
  import opened Sorting

  const MAX_MEMBERS: nat := 8192
  const MAX_MEMBER_WEIGHT: nat := 1000000
  const MAX_WITNESS_NODES: nat := 4096

  datatype Member = Member(
    resource: ResourceId, weight: nat, protectedObligation: bool, witnessPath: seq<ResourceId>, usesUnknown: bool)

  datatype Boundary = Boundary(generation: nat, members: seq<Member>) {
    /** The governed scope. */
    ghost function Ids(): set<ResourceId> { set i | 0 <= i < |members| :: members[i].resource }

    ghost predicate Sorted() { StrictlySortedBy(MemberLess, members) }
  }

  /** A boundary nobody created: generation zero, no members, and the zero digest. */
  const BLANK := Boundary(0, [])

  /** Digests are taken as injective: equal digests mean equal content. */
  datatype Digest = ZeroDigest | DigestOf(content: Boundary)

  function DigestOfBoundary(b: Boundary): Digest {
    if b == BLANK then ZeroDigest else DigestOf(b)
  }

  predicate MemberLess(a: Member, b: Member) { IdLess(a.resource, b.resource) }

  lemma MemberOrder()
    ensures StrictWeak(MemberLess)
  {
    IdOrder();
  }

  predicate MemberOk(m: Member) {
    m.resource != "" && m.weight <= MAX_MEMBER_WEIGHT && |m.witnessPath| <= MAX_WITNESS_NODES
  }

  datatype CreateError = ZeroGeneration | TooManyMembers | EmptyId | WeightOutOfRange | WitnessTooLong | DuplicateMember

  datatype CreateResult = Created(boundary: Boundary) | CreateRefused(error: CreateError)

  /** What `create` demands, whatever order the members come in. */
  ghost predicate Creatable(generation: nat, members: seq<Member>) {
    && generation != 0 && |members| <= MAX_MEMBERS
    && (forall i :: 0 <= i < |members| ==> MemberOk(members[i]))
    && Separated(MemberLess, members)
  }

  /** The condition a refusal names. */
  ghost predicate Violated(generation: nat, members: seq<Member>, error: CreateError) {
    match error
    case ZeroGeneration => generation == 0
    case TooManyMembers => |members| > MAX_MEMBERS
    case EmptyId => exists m <- members :: m.resource == ""
    case WeightOutOfRange => exists m <- members :: m.weight > MAX_MEMBER_WEIGHT
    case WitnessTooLong => exists m <- members :: |m.witnessPath| > MAX_WITNESS_NODES
    case DuplicateMember => exists i, j :: 0 <= i < j < |members| && members[i].resource == members[j].resource
  }

  lemma NotSeparated(members: seq<Member>)
    requires !Separated(MemberLess, members)
    ensures Violated(1, members, DuplicateMember)
  {
    IdOrder();
    var i, j :| 0 <= i < j < |members| && !MemberLess(members[i], members[j]) && !MemberLess(members[j], members[i]);
    assert members[i].resource == members[j].resource;
  }

  lemma SortedSameMembers(members: seq<Member>)
    ensures var sorted := SortBy(MemberLess, members);
      SortedBy(MemberLess, sorted) && multiset(sorted) == multiset(members) && |sorted| == |members|
      && (forall x :: x in members <==> x in sorted)
      && (Separated(MemberLess, members) <==> StrictlySortedBy(MemberLess, sorted))
  {
    MemberOrder();
    SortBySorted(MemberLess, members);
    var sorted := SortBy(MemberLess, members);
    SortedAndSeparated(MemberLess, sorted);
    if Separated(MemberLess, members) { SeparatedPermuted(MemberLess, members, sorted); }
    if Separated(MemberLess, sorted) { SeparatedPermuted(MemberLess, sorted, members); }
    hide SortBy, SortedBy, Separated, StrictlySortedBy, StrictWeak;
    assert |sorted| == |multiset(sorted)| == |members|;
    assert forall x :: x in members <==> x in multiset(members);
  }

  lemma SameIdNotLess(a: Member, b: Member)
    requires a.resource == b.resource
    ensures !MemberLess(a, b)
  {
    IdOrder();
  }

  lemma NeighboursDiffer(members: seq<Member>)
    requires SortedBy(MemberLess, members)
    requires forall j :: 0 < j < |members| ==> members[j - 1].resource != members[j].resource
    ensures StrictlySortedBy(MemberLess, members)
  {
    IdOrder();
    forall i, j | 0 <= i < j < |members| ensures MemberLess(members[i], members[j]) {
      assert !MemberLess(members[j - 1], members[i]) || i == j - 1;
      assert !MemberLess(members[j], members[j - 1]);
    }
  }

  /** Sorts the members and refuses duplicates and malformed ones. */
  method Create(generation: nat, members: seq<Member>) returns (r: CreateResult)
    ensures r.Created? <==> Creatable(generation, members)
    ensures r.Created? ==> r.boundary == Boundary(generation, SortBy(MemberLess, members)) && r.boundary.Sorted()
    ensures r.CreateRefused? ==> Violated(generation, members, r.error)
  {
    hide SortBy, StrictWeak, SortedBy, Separated, MemberLess;
    if generation == 0 { return CreateRefused(ZeroGeneration); }
    if |members| > MAX_MEMBERS { return CreateRefused(TooManyMembers); }
    var sorted := SortBy(MemberLess, members);
    SortedSameMembers(members);
    var i := 0;
    while i < |sorted|
      invariant i <= |sorted| && forall j :: 0 <= j < i ==> MemberOk(sorted[j])
      invariant forall j :: 0 < j < i ==> sorted[j - 1].resource != sorted[j].resource
    {
      assert sorted[i] in members;
      if sorted[i].resource == "" { return CreateRefused(EmptyId); }
      if sorted[i].weight > MAX_MEMBER_WEIGHT { return CreateRefused(WeightOutOfRange); }
      if |sorted[i].witnessPath| > MAX_WITNESS_NODES { return CreateRefused(WitnessTooLong); }
      if i > 0 && sorted[i - 1].resource == sorted[i].resource {
        SameIdNotLess(sorted[i - 1], sorted[i]);
        NotSeparated(members);
        return CreateRefused(DuplicateMember);
      }
      i := i + 1;
    }
    NeighboursDiffer(sorted);
    forall k | 0 <= k < |members| ensures MemberOk(members[k]) { assert members[k] in sorted; }
    r := Created(Boundary(generation, sorted));
  }

  // ---------------------------------------------------------------------
  // Set questions
  // ---------------------------------------------------------------------

  lemma SortedDistinct(b: Boundary, i: nat, j: nat)
    requires b.Sorted() && i < j < |b.members|
    ensures IdLess(b.members[i].resource, b.members[j].resource)
    ensures b.members[i].resource != b.members[j].resource
  {
    IdOrder();
    assert MemberLess(b.members[i], b.members[j]);
  }

  /** Binary search for the first member not below `resource`. */
  method Contains(b: Boundary, resource: ResourceId) returns (found: bool)
    requires b.Sorted()
    ensures found <==> resource in b.Ids()
  {
    IdOrder();
    hide IdLess, StrictlySortedBy, MemberLess;
    var low, high := 0, |b.members|;
    while low < high
      invariant 0 <= low <= high <= |b.members|
      invariant forall k :: 0 <= k < low ==> IdLess(b.members[k].resource, resource)
      invariant forall k :: high <= k < |b.members| ==> !IdLess(b.members[k].resource, resource)
    {
      var mid := (low + high) / 2;
      if IdLess(b.members[mid].resource, resource) {
        forall k | 0 <= k <= mid ensures IdLess(b.members[k].resource, resource) {
          if k < mid { SortedDistinct(b, k, mid); }
        }
        low := mid + 1;
      } else {
        forall k | mid <= k < |b.members| ensures !IdLess(b.members[k].resource, resource) {
          if mid < k { SortedDistinct(b, mid, k); }
        }
        high := mid;
      }
    }
    found := low < |b.members| && b.members[low].resource == resource;
    if resource in b.Ids() {
      var k :| 0 <= k < |b.members| && b.members[k].resource == resource;
      if low < k { SortedDistinct(b, low, k); }
    }
  }

  method IsSubsetOf(a: Boundary, b: Boundary) returns (r: bool)
    requires b.Sorted()
    ensures r <==> a.Ids() <= b.Ids()
  {
    var i := 0;
    while i < |a.members|
      invariant i <= |a.members| && forall k :: 0 <= k < i ==> a.members[k].resource in b.Ids()
    {
      var found := Contains(b, a.members[i].resource);
      if !found {
        assert a.members[i].resource in a.Ids();
        return false;
      }
      i := i + 1;
    }
    r := true;
  }

  method SameMembers(a: Boundary, b: Boundary) returns (r: bool)
    requires a.Sorted() && b.Sorted()
    ensures r <==> a.Ids() == b.Ids()
  {
    if |a.members| != |b.members| {
      if a.Ids() == b.Ids() { SameSetSameIds(a, b); }
      return false;
    }
    var i := 0;
    while i < |a.members|
      invariant i <= |a.members| && forall k :: 0 <= k < i ==> a.members[k].resource == b.members[k].resource
    {
      if a.members[i].resource != b.members[i].resource {
        if a.Ids() == b.Ids() { SameSetSameIds(a, b); }
        return false;
      }
      i := i + 1;
    }
    SameIdsSameSet(a, b);
    r := true;
  }

  lemma SameIdsSameSet(a: Boundary, b: Boundary)
    requires |a.members| == |b.members|
    requires forall k :: 0 <= k < |a.members| ==> a.members[k].resource == b.members[k].resource
    ensures a.Ids() == b.Ids()
  {
    forall x | x in a.Ids() ensures x in b.Ids() {
      var k :| 0 <= k < |a.members| && a.members[k].resource == x;
      assert b.members[k].resource == x;
    }
    forall x | x in b.Ids() ensures x in a.Ids() {
      var k :| 0 <= k < |b.members| && b.members[k].resource == x;
      assert a.members[k].resource == x;
    }
  }

  /** Position `i` of one list, when all before agree, cannot be missing from or misplaced in the other. */
  lemma {:induction false} SameSetSameIds(a: Boundary, b: Boundary)
    requires a.Sorted() && b.Sorted() && a.Ids() == b.Ids()
    ensures |a.members| == |b.members|
    ensures forall k :: 0 <= k < |a.members| ==> a.members[k].resource == b.members[k].resource
  {
    PrefixAgrees(a, b, if |a.members| <= |b.members| then |a.members| else |b.members|);
    if |a.members| < |b.members| { Surplus(b, a); }
    if |b.members| < |a.members| { Surplus(a, b); }
  }

  /** A longer list whose front agrees holds an identity the shorter one lacks. */
  lemma Surplus(a: Boundary, b: Boundary)
    requires a.Sorted() && |b.members| < |a.members|
    requires forall k :: 0 <= k < |b.members| ==> a.members[k].resource == b.members[k].resource
    ensures a.Ids() != b.Ids()
  {
    var n := |b.members|;
    assert a.members[n].resource in a.Ids();
    if a.members[n].resource in b.Ids() {
      var k :| 0 <= k < n && b.members[k].resource == a.members[n].resource;
      SortedDistinct(a, k, n);
    }
  }

  lemma {:induction false} PrefixAgrees(a: Boundary, b: Boundary, n: nat)
    requires a.Sorted() && b.Sorted() && a.Ids() == b.Ids() && n <= |a.members| && n <= |b.members|
    ensures forall k :: 0 <= k < n ==> a.members[k].resource == b.members[k].resource
    decreases n
  {
    if n > 0 {
      PrefixAgrees(a, b, n - 1);
      FirstDifference(a, b, n - 1);
      FirstDifference(b, a, n - 1);
      IdOrder();
    }
  }

  lemma FirstDifference(a: Boundary, b: Boundary, i: nat)
    requires a.Sorted() && b.Sorted() && a.Ids() == b.Ids() && i < |a.members| && i < |b.members|
    requires forall k :: 0 <= k < i ==> a.members[k].resource == b.members[k].resource
    ensures a.members[i].resource == b.members[i].resource || IdLess(b.members[i].resource, a.members[i].resource)
  {
    hide IdLess;
    var x := a.members[i].resource;
    assert x in a.Ids();
    var k :| 0 <= k < |b.members| && b.members[k].resource == x;
    if k < i { SortedDistinct(a, k, i); }
    if k > i { SortedDistinct(b, i, k); }
  }
}
