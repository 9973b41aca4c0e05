/** Sums over index sets, ascending sequences and lexicographic order: the vocabulary
    in which the containment problem states its weights, members and tie-breaks. */
module Collections {

  datatype Option<+T> = None | Some(value: T)

  /** The sum of `w` over the indices in `c`; indices outside `w` count nothing. */
  function SumOver(w: seq<nat>, c: set<nat>): nat {
    if |w| == 0 then 0
    else SumOver(w[..|w| - 1], c) + (if |w| - 1 in c then w[|w| - 1] else 0)
  }

  lemma {:induction false} SumMonotone(w: seq<nat>, a: set<nat>, b: set<nat>)
    requires a <= b
    ensures SumOver(w, a) <= SumOver(w, b)
  {
    if |w| != 0 { SumMonotone(w[..|w| - 1], a, b); }
  }

  lemma {:induction false} SumDisjoint(w: seq<nat>, a: set<nat>, b: set<nat>)
    requires a !! b
    ensures SumOver(w, a + b) == SumOver(w, a) + SumOver(w, b)
  {
    if |w| != 0 { SumDisjoint(w[..|w| - 1], a, b); }
  }

  lemma {:induction false} SumEmpty(w: seq<nat>)
    ensures SumOver(w, {}) == 0
  {
    if |w| != 0 { SumEmpty(w[..|w| - 1]); }
  }

  lemma {:induction false} SumSingleton(w: seq<nat>, v: nat)
    ensures SumOver(w, {v}) == if v < |w| then w[v] else 0
  {
    if |w| != 0 {
      SumSingleton(w[..|w| - 1], v);
    }
  }

  lemma SumAdd(w: seq<nat>, c: set<nat>, v: nat)
    requires v !in c && v < |w|
    ensures SumOver(w, c + {v}) == SumOver(w, c) + w[v]
  {
    SumDisjoint(w, c, {v});
    SumSingleton(w, v);
  }

  lemma SumRemove(w: seq<nat>, c: set<nat>, v: nat)
    requires v in c && v < |w|
    ensures SumOver(w, c) == SumOver(w, c - {v}) + w[v]
  {
    SumAdd(w, c - {v}, v);
    assert c - {v} + {v} == c;
  }

  /** A proper superset inside the index range weighs strictly more when no weight is zero. */
  lemma SumStrict(w: seq<nat>, a: set<nat>, b: set<nat>)
    requires a < b
    requires forall v :: v in b ==> v < |w| && w[v] > 0
    ensures SumOver(w, a) < SumOver(w, b)
  {
    var v :| v in b && v !in a;
    SumAdd(w, a, v);
    SumMonotone(w, a + {v}, b);
  }

  /** No sum of bounded weights leaves the range of an unsigned 64-bit word. */
  lemma {:induction false} SumBounded(w: seq<nat>, c: set<nat>, limit: nat)
    requires forall i :: 0 <= i < |w| ==> w[i] <= limit
    ensures SumOver(w, c) <= |w| * limit
  {
    if |w| != 0 {
      SumBounded(w[..|w| - 1], c, limit);
      assert (|w| - 1) * limit + limit == |w| * limit;
    }
  }

  function Pow2(n: nat): (p: nat)
    ensures p > 0
  {
    if n == 0 then 1 else 2 * Pow2(n - 1)
  }

  lemma {:induction false} Pow2Monotone(a: nat, b: nat)
    requires a <= b
    ensures Pow2(a) <= Pow2(b)
    decreases b
  {
    if a < b { Pow2Monotone(a, b - 1); }
  }

  // ---------------------------------------------------------------------
  // Marks and ascending sequences
  // ---------------------------------------------------------------------

  /** The indices a mask marks. */
  function Marked(mask: seq<bool>): set<nat> {
    set v: nat | 0 <= v < |mask| && mask[v]
  }

  lemma MarkedUpdate(mask: seq<bool>, v: nat, b: bool)
    requires v < |mask|
    ensures Marked(mask[v := b]) == if b then Marked(mask) + {v} else Marked(mask) - {v}
  {
  }

  function Elements<T>(s: seq<T>): set<T> {
    set x | x in s
  }

  lemma ElementsAppend<T>(s: seq<T>, x: T)
    ensures Elements(s + [x]) == Elements(s) + {x}
  {
    assert (s + [x])[|s|] == x;
    forall y | y in Elements(s) ensures y in s + [x] {
      var i :| 0 <= i < |s| && s[i] == y;
      assert (s + [x])[i] == y;
    }
  }

  predicate Distinct<T(==)>(s: seq<T>) {
    forall i, j :: 0 <= i < j < |s| ==> s[i] != s[j]
  }

  predicate Ascending(s: seq<nat>) {
    forall i, j :: 0 <= i < j < |s| ==> s[i] < s[j]
  }

  lemma AscendingAppend(s: seq<nat>, x: nat)
    requires Ascending(s) && forall v :: v in s ==> v < x
    ensures Ascending(s + [x])
  {
    assert forall i :: 0 <= i < |s| ==> s[i] in s;
  }

  predicate NonDescending(s: seq<nat>) {
    forall i, j :: 0 <= i < j < |s| ==> s[i] <= s[j]
  }

  lemma DistinctAppend<T>(s: seq<T>, x: T)
    ensures Distinct(s + [x]) <==> Distinct(s) && x !in Elements(s)
  {
    var t := s + [x];
    assert t[|s|] == x && t[..|s|] == s;
    if x in Elements(s) {
      var i :| 0 <= i < |s| && s[i] == x;
      assert t[i] == t[|s|];
    }
    if !Distinct(s) {
      var i, j :| 0 <= i < j < |s| && s[i] == s[j];
      assert t[i] == t[j];
    }
  }

  lemma {:induction false} DistinctIffCount<T>(s: seq<T>)
    ensures |Elements(s)| <= |s|
    ensures Distinct(s) <==> |Elements(s)| == |s|
  {
    if s != [] {
      var n := |s| - 1;
      DistinctIffCount(s[..n]);
      assert s == s[..n] + [s[n]];
      ElementsAppend(s[..n], s[n]);
      DistinctAppend(s[..n], s[n]);
      hide Elements, Distinct;
    }
  }

  lemma SubsetCount<T>(a: set<T>, b: set<T>)
    requires a <= b
    ensures |a| <= |b|
    ensures a < b ==> |a| < |b|
  {
    assert b == a + (b - a);
    assert |b| == |a| + |b - a|;
  }

  /** The numbers below `n`. */
  function Range(n: nat): (r: set<nat>)
    ensures |r| == n && forall v: nat :: v in r <==> v < n
  {
    if n == 0 then {} else Range(n - 1) + {n - 1}
  }

  lemma NoElements<T>(s: seq<T>)
    ensures Elements(s) == {} <==> s == []
  {
    if s != [] { assert s[0] in Elements(s); }
  }

  /** Two ascending sequences with the same elements are the same sequence. */
  lemma {:induction false} AscendingUnique(a: seq<nat>, b: seq<nat>)
    requires Ascending(a) && Ascending(b) && Elements(a) == Elements(b)
    ensures a == b
  {
    if a == [] {
      NoElements(b);
    } else {
      assert a[|a| - 1] in Elements(b);
      assert b != [];
      var m, n := |a| - 1, |b| - 1;
      assert b[n] in Elements(a);
      assert a[m] == b[n];
      LastDropped(a);
      LastDropped(b);
      AscendingUnique(a[..m], b[..n]);
      assert a == a[..m] + [a[m]] && b == b[..n] + [b[n]];
    }
  }

  lemma LastDropped(a: seq<nat>)
    requires Ascending(a) && a != []
    ensures Elements(a[..|a| - 1]) == Elements(a) - {a[|a| - 1]}
  {
    var m := |a| - 1;
    forall x | x in Elements(a) && x != a[m] ensures x in a[..m] {
      var i :| 0 <= i < |a| && a[i] == x;
      assert a[..m][i] == x;
    }
  }

  /** `std::reverse`. */
  function Backwards<T>(s: seq<T>): seq<T> {
    if s == [] then [] else Backwards(s[1..]) + [s[0]]
  }

  lemma {:induction false} BackwardsAppend<T>(s: seq<T>, x: T)
    ensures Backwards(s + [x]) == [x] + Backwards(s)
  {
    if s != [] {
      assert (s + [x])[1..] == s[1..] + [x];
      BackwardsAppend(s[1..], x);
    }
  }

  /** `std::sort` on node indices. */
  function Sorted(s: seq<nat>): (r: seq<nat>)
    ensures NonDescending(r) && |r| == |s| && Elements(r) == Elements(s)
  {
    if s == [] then []
    else
      assert Elements(s) == Elements(s[1..]) + {s[0]} by { assert s == [s[0]] + s[1..]; }
      Inserted(Sorted(s[1..]), s[0])
  }

  function Inserted(s: seq<nat>, x: nat): (r: seq<nat>)
    requires NonDescending(s)
    ensures NonDescending(r) && |r| == |s| + 1 && Elements(r) == Elements(s) + {x}
  {
    if s == [] || x <= s[0] then
      Prepended(s, x);
      [x] + s
    else
      var rest := Inserted(s[1..], x);
      InsertedFurther(s, rest, x);
      [s[0]] + rest
  }

  lemma InsertedFurther(s: seq<nat>, rest: seq<nat>, x: nat)
    requires s != [] && s[0] < x && NonDescending(s) && NonDescending(rest)
    requires |rest| == |s| && Elements(rest) == Elements(s[1..]) + {x}
    ensures NonDescending([s[0]] + rest) && Elements([s[0]] + rest) == Elements(s) + {x}
  {
    HeadLeast(s);
    hide NonDescending;
    TailElements(s);
    AllAbove(rest, s[0], Elements(s[1..]) + {x});
  }

  lemma HeadLeast(s: seq<nat>)
    requires s != [] && NonDescending(s)
    ensures forall y :: y in Elements(s[1..]) ==> s[0] <= y
  {
    forall y | y in Elements(s[1..]) ensures s[0] <= y {
      var i :| 0 <= i < |s| - 1 && s[1..][i] == y;
      assert s[0] <= s[i + 1];
    }
  }

  lemma TailElements(s: seq<nat>)
    requires s != []
    ensures Elements(s) == Elements(s[1..]) + {s[0]}
  {
    assert forall i :: 0 < i < |s| ==> s[i] == s[1..][i - 1];
  }

  lemma AllAbove(rest: seq<nat>, x: nat, c: set<nat>)
    requires NonDescending(rest) && Elements(rest) == c && forall y :: y in c ==> x <= y
    ensures NonDescending([x] + rest) && Elements([x] + rest) == c + {x}
  {
    Prepended(rest, x);
  }

  lemma Prepended(s: seq<nat>, x: nat)
    requires NonDescending(s)
    ensures Elements([x] + s) == Elements(s) + {x}
    ensures (forall y :: y in Elements(s) ==> x <= y) ==> NonDescending([x] + s)
  {
    assert forall i :: 0 <= i < |s| ==> s[i] in Elements(s);
    assert forall i :: 0 < i < |s| + 1 ==> ([x] + s)[i] == s[i - 1];
  }

  /** A sorted sequence has a repeated neighbour exactly when the unsorted one repeats a member. */
  lemma SortedDistinct(s: seq<nat>)
    ensures Distinct(s) <==> Ascending(Sorted(s))
    ensures Distinct(s) <==> |Elements(s)| == |s|
  {
    DistinctIffCount(s);
    DistinctIffCount(Sorted(s));
    assert Distinct(Sorted(s)) <==> Ascending(Sorted(s));
  }

  // ---------------------------------------------------------------------
  // Lexicographic order
  // ---------------------------------------------------------------------

  /** `std::lexicographical_compare` with the element order `less`. */
  predicate LexLess<T>(less: (T, T) -> bool, a: seq<T>, b: seq<T>) {
    if b == [] then false
    else if a == [] then true
    else if less(a[0], b[0]) then true
    else if less(b[0], a[0]) then false
    else LexLess(less, a[1..], b[1..])
  }

  ghost predicate StrictTotal<T(!new)>(less: (T, T) -> bool) {
    && (forall x :: !less(x, x))
    && (forall x, y, z :: less(x, y) && less(y, z) ==> less(x, z))
    && (forall x, y :: x != y ==> less(x, y) || less(y, x))
  }

  lemma {:induction false} LexIrreflexive<T(!new)>(less: (T, T) -> bool, a: seq<T>)
    requires StrictTotal(less)
    ensures !LexLess(less, a, a)
  {
    if a != [] { LexIrreflexive(less, a[1..]); }
  }

  lemma {:induction false} LexTransitive<T(!new)>(less: (T, T) -> bool, a: seq<T>, b: seq<T>, c: seq<T>)
    requires StrictTotal(less) && LexLess(less, a, b) && LexLess(less, b, c)
    ensures LexLess(less, a, c)
  {
    if a != [] && b != [] && c != [] && a[0] == b[0] == c[0] {
      LexTransitive(less, a[1..], b[1..], c[1..]);
    }
  }

  lemma {:induction false} LexTotal<T(!new)>(less: (T, T) -> bool, a: seq<T>, b: seq<T>)
    requires StrictTotal(less) && a != b
    ensures LexLess(less, a, b) || LexLess(less, b, a)
  {
    if a != [] && b != [] && a[0] == b[0] {
      assert a == [a[0]] + a[1..] && b == [b[0]] + b[1..];
      LexTotal(less, a[1..], b[1..]);
    }
  }

  /** Lexicographic order over a strict total order is itself a strict total order. */
  lemma LexStrictTotal<T(!new)>(less: (T, T) -> bool, lex: (seq<T>, seq<T>) -> bool)
    requires StrictTotal(less)
    requires forall a, b :: lex(a, b) <==> LexLess(less, a, b)
    ensures StrictTotal(lex)
  {
    forall a ensures !lex(a, a) { LexIrreflexive(less, a); }
    forall a, b, c | lex(a, b) && lex(b, c) ensures lex(a, c) { LexTransitive(less, a, b, c); }
    forall a, b | a != b ensures lex(a, b) || lex(b, a) { LexTotal(less, a, b); }
  }
}
