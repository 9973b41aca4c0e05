/** Sorting by a strict order, and why a strictly sorted sequence is determined by its elements. */
module Sorting {
  import opened Collections

  /** A strict order whose incomparability is transitive, as `std::sort` demands. */
  ghost predicate StrictWeak<T(!new)>(less: (T, T) -> bool) {
    && (forall x, y :: less(x, y) ==> !less(y, x))
    && (forall x, y, z :: !less(y, x) && !less(z, y) ==> !less(z, x))
  }

  ghost predicate SortedBy<T>(less: (T, T) -> bool, s: seq<T>) {
    forall i, j :: 0 <= i < j < |s| ==> !less(s[j], s[i])
  }

  ghost predicate StrictlySortedBy<T>(less: (T, T) -> bool, s: seq<T>) {
    forall i, j :: 0 <= i < j < |s| ==> less(s[i], s[j])
  }

  /** `std::sort`. */
  function SortBy<T>(less: (T, T) -> bool, s: seq<T>): seq<T> {
    if s == [] then [] else InsertBy(less, SortBy(less, s[1..]), s[0])
  }

  function InsertBy<T>(less: (T, T) -> bool, s: seq<T>, x: T): seq<T> {
    if s == [] || !less(s[0], x) then [x] + s else [s[0]] + InsertBy(less, s[1..], x)
  }

  lemma {:induction false} InsertBySorted<T(!new)>(less: (T, T) -> bool, s: seq<T>, x: T)
    requires StrictWeak(less) && SortedBy(less, s)
    ensures SortedBy(less, InsertBy(less, s, x)) && multiset(InsertBy(less, s, x)) == multiset(s) + multiset{x}
  {
    var r := InsertBy(less, s, x);
    if s == [] || !less(s[0], x) {
      assert forall j :: 0 <= j < |s| ==> !less(s[j], x) by {
        forall j | 0 <= j < |s| ensures !less(s[j], x) { assert j > 0 ==> !less(s[j], s[0]); }
      }
    } else {
      var rest := InsertBy(less, s[1..], x);
      InsertBySorted(less, s[1..], x);
      assert s == [s[0]] + s[1..];
      forall j | 0 <= j < |rest| ensures !less(rest[j], s[0]) {
        assert rest[j] in multiset(rest);
        if rest[j] != x {
          assert rest[j] in s[1..];
        }
      }
    }
  }

  lemma {:induction false} SortBySorted<T(!new)>(less: (T, T) -> bool, s: seq<T>)
    requires StrictWeak(less)
    ensures SortedBy(less, SortBy(less, s)) && multiset(SortBy(less, s)) == multiset(s)
  {
    if s != [] {
      assert s == [s[0]] + s[1..];
      SortBySorted(less, s[1..]);
      InsertBySorted(less, SortBy(less, s[1..]), s[0]);
    }
  }

  /** No two entries are incomparable: their keys differ. */
  ghost predicate Separated<T>(less: (T, T) -> bool, s: seq<T>) {
    forall i, j :: 0 <= i < j < |s| ==> less(s[i], s[j]) || less(s[j], s[i])
  }

  lemma TwiceMeansTwo<T>(s: seq<T>, i: nat, j: nat)
    requires i < j < |s| && s[i] == s[j]
    ensures multiset(s)[s[i]] >= 2
  {
    assert s == s[..j] + [s[j]] + s[j + 1..];
    assert multiset(s) == multiset(s[..j]) + multiset{s[j]} + multiset(s[j + 1..]);
    assert s[..j][i] == s[i] && s[i] in s[..j];
  }

  lemma {:induction false} TwoMeansTwice<T>(s: seq<T>, x: T) returns (i: nat, j: nat)
    requires multiset(s)[x] >= 2
    ensures i < j < |s| && s[i] == s[j] == x
  {
    assert s == [s[0]] + s[1..];
    if s[0] == x {
      assert x in multiset(s[1..]);
      var k :| 0 <= k < |s| - 1 && s[1..][k] == x;
      i, j := 0, k + 1;
    } else {
      i, j := TwoMeansTwice(s[1..], x);
      i, j := i + 1, j + 1;
    }
  }

  /** Reordering keeps keys apart. */
  lemma SeparatedPermuted<T(!new)>(less: (T, T) -> bool, a: seq<T>, b: seq<T>)
    requires StrictWeak(less) && Separated(less, a) && multiset(a) == multiset(b)
    ensures Separated(less, b)
  {
    forall i, j | 0 <= i < j < |b| ensures less(b[i], b[j]) || less(b[j], b[i]) {
      if b[i] == b[j] {
        TwiceMeansTwo(b, i, j);
        var k, l := TwoMeansTwice(a, b[i]);
      }
      assert b[i] in multiset(a) && b[j] in multiset(a);
      var k :| 0 <= k < |a| && a[k] == b[i];
      var l :| 0 <= l < |a| && a[l] == b[j];
    }
  }

  lemma SortedAndSeparated<T(!new)>(less: (T, T) -> bool, s: seq<T>)
    requires StrictWeak(less) && SortedBy(less, s)
    ensures Separated(less, s) <==> StrictlySortedBy(less, s)
  {
    assert Separated(less, s) ==> forall i, j :: 0 <= i < j < |s| ==> less(s[i], s[j]) || less(s[j], s[i]);
  }

  /** Sorting a sequence with distinct keys gives the one strictly sorted sequence of its entries. */
  lemma SortByCanonical<T(!new)>(less: (T, T) -> bool, a: seq<T>, b: seq<T>)
    requires StrictWeak(less) && Separated(less, a) && multiset(a) == multiset(b)
    ensures StrictlySortedBy(less, SortBy(less, a)) && SortBy(less, a) == SortBy(less, b)
  {
    SortBySorted(less, a);
    SortBySorted(less, b);
    SeparatedPermuted(less, a, SortBy(less, a));
    SeparatedPermuted(less, a, SortBy(less, b));
    SortedAndSeparated(less, SortBy(less, a));
    SortedAndSeparated(less, SortBy(less, b));
    StrictlySortedUnique(less, SortBy(less, a), SortBy(less, b));
  }

  lemma TailCount<T>(a: seq<T>)
    requires a != []
    ensures multiset(a[1..]) == multiset(a) - multiset{a[0]}
  {
    assert a == [a[0]] + a[1..];
  }

  lemma TailSorted<T(!new)>(less: (T, T) -> bool, a: seq<T>)
    requires a != [] && StrictlySortedBy(less, a)
    ensures StrictlySortedBy(less, a[1..])
  {
  }

  lemma HeadsAgree<T(!new)>(less: (T, T) -> bool, a: seq<T>, b: seq<T>)
    requires StrictWeak(less) && StrictlySortedBy(less, a) && StrictlySortedBy(less, b)
    requires a != [] && b != [] && a[0] in b && b[0] in a
    ensures a[0] == b[0]
  {
    var j :| 0 <= j < |b| && b[j] == a[0];
    var i :| 0 <= i < |a| && a[i] == b[0];
    assert i > 0 ==> less(a[0], a[i]);
    assert j > 0 ==> less(b[0], b[j]);
  }

  /** Strictly sorted sequences with the same elements are equal. */
  lemma {:induction false} StrictlySortedUnique<T(!new)>(less: (T, T) -> bool, a: seq<T>, b: seq<T>)
    requires StrictWeak(less) && StrictlySortedBy(less, a) && StrictlySortedBy(less, b)
    requires multiset(a) == multiset(b)
    ensures a == b
  {
    assert |a| == |multiset(a)| == |multiset(b)| == |b|;
    if a != [] {
      assert a[0] in multiset(a) && b[0] in multiset(b);
      HeadsAgree(less, a, b);
      TailCount(a);
      TailCount(b);
      TailSorted(less, a);
      TailSorted(less, b);
      hide StrictlySortedBy, StrictWeak;
      StrictlySortedUnique(less, a[1..], b[1..]);
      assert a == [a[0]] + a[1..] && b == [b[0]] + b[1..];
    }
  }
}
