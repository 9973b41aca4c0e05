/** Polynomials over the field of two elements, as the sets of their exponents, and what a remainder is. */
module Gf2 {
  type Poly = set<nat>

  /** Addition, which is also subtraction: equal terms cancel. */
  function Add(a: Poly, b: Poly): Poly { (a - b) + (b - a) }

  /** The product with the `k`-th power of the variable. */
  function Shift(a: Poly, k: nat): Poly { set e | e in a :: e + k }

  function Times(c: bool, g: Poly): Poly { if c then g else {} }

  /** The product of `g` and the polynomial with the coefficients `q`, highest first. */
  function Product(q: seq<bool>, g: Poly): Poly {
    if q == [] then {} else Add(Shift(Product(q[..|q| - 1], g), 1), Times(q[|q| - 1], g))
  }

  ghost predicate Multiple(p: Poly, g: Poly) {
    exists q: seq<bool> :: p == Product(q, g)
  }

  predicate Below(p: Poly, degree: nat) {
    forall e <- p :: e < degree
  }

  /** `p` is `r` and a multiple of `g`, which has this degree, and `r` is of lower degree. */
  ghost predicate Remainder(r: Poly, p: Poly, g: Poly, degree: nat) {
    Below(r, degree) && Multiple(Add(p, r), g)
  }

  /** The polynomial with these coefficients, highest first. */
  function FromBits(bits: seq<bool>): Poly {
    set e: nat | e < |bits| && HasTerm(bits, e)
  }

  predicate HasTerm(bits: seq<bool>, e: nat) {
    e < |bits| && bits[|bits| - 1 - e]
  }

  lemma ShiftIn(a: Poly, k: nat, e: nat)
    ensures e in Shift(a, k) <==> e >= k && e - k in a
  {
    if e >= k && e - k in a { assert (e - k) + k == e; }
  }

  lemma AddIn(a: Poly, b: Poly, e: nat)
    ensures e in Add(a, b) <==> (e in a) != (e in b)
  {
  }

  lemma Cancel(a: Poly, b: Poly, t: Poly, u: Poly)
    ensures Add(Add(a, t), Add(Add(b, t), u)) == Add(Add(a, b), u)
  {
  }

  lemma ShiftAdd(a: Poly, b: Poly, k: nat)
    ensures Shift(Add(a, b), k) == Add(Shift(a, k), Shift(b, k))
  {
    forall e: nat ensures e in Shift(Add(a, b), k) <==> e in Add(Shift(a, k), Shift(b, k)) {
      ShiftIn(Add(a, b), k, e);
      ShiftIn(a, k, e);
      ShiftIn(b, k, e);
    }
  }

  lemma ProductNext(q: seq<bool>, c: bool, g: Poly)
    ensures Product(q + [c], g) == Add(Shift(Product(q, g), 1), Times(c, g))
  {
    assert (q + [c])[..|q|] == q;
  }

  /** Sums of multiples are multiples. */
  lemma {:induction false} ProductsAdd(a: seq<bool>, b: seq<bool>, g: Poly)
    requires |a| == |b|
    ensures Add(Product(a, g), Product(b, g)) == Product(seq(|a|, i requires 0 <= i < |a| => a[i] != b[i]), g)
  {
    var both := seq(|a|, i requires 0 <= i < |a| => a[i] != b[i]);
    if a != [] {
      var n := |a| - 1;
      ProductsAdd(a[..n], b[..n], g);
      assert both[..n] == seq(n, i requires 0 <= i < n => a[..n][i] != b[..n][i]);
      ShiftAdd(Product(a[..n], g), Product(b[..n], g), 1);
    }
  }

  lemma {:induction false} LeadingZeros(q: seq<bool>, k: nat, g: Poly)
    ensures Product(seq(k, _ => false) + q, g) == Product(q, g)
    decreases k + |q|
  {
    var padded := seq(k, _ => false) + q;
    if q != [] {
      LeadingZeros(q[..|q| - 1], k, g);
      assert padded[..|padded| - 1] == seq(k, _ => false) + q[..|q| - 1];
    } else if k > 0 {
      LeadingZeros([], k - 1, g);
      assert padded[..k - 1] == seq(k - 1, _ => false) + [];
      assert Shift({}, 1) == {};
    }
  }

  lemma MultiplesAdd(p: Poly, r: Poly, g: Poly)
    requires Multiple(p, g) && Multiple(r, g)
    ensures Multiple(Add(p, r), g)
  {
    var a, b :| p == Product(a, g) && r == Product(b, g);
    LeadingZeros(a, |b|, g);
    LeadingZeros(b, |a|, g);
    ProductsAdd(seq(|b|, _ => false) + a, seq(|a|, _ => false) + b, g);
  }

  /** A multiple that is not zero has a term of the divisor's degree or higher. */
  lemma {:induction false} ProductHigh(q: seq<bool>, g: Poly, degree: nat)
    requires degree in g && Below(g, degree + 1)
    ensures Product(q, g) == {} || exists e <- Product(q, g) :: e >= degree
  {
    if q != [] {
      var n := |q| - 1;
      var p := Product(q[..n], g);
      ProductHigh(q[..n], g, degree);
      if p == {} {
        assert Shift(p, 1) == {};
      } else {
        var e :| e in p && e >= degree;
        ShiftIn(p, 1, e + 1);
        assert e + 1 in Product(q, g);
      }
    }
  }

  lemma QuotientRemains(r: Poly, p: Poly, g: Poly, degree: nat, q: seq<bool>)
    requires Below(r, degree) && Add(p, r) == Product(q, g)
    ensures Remainder(r, p, g, degree)
  {
    hide Product, Add;
  }

  /** There is one remainder. */
  lemma RemainderUnique(r: Poly, s: Poly, p: Poly, g: Poly, degree: nat)
    requires degree in g && Below(g, degree + 1)
    requires Remainder(r, p, g, degree) && Remainder(s, p, g, degree)
    ensures r == s
  {
    MultiplesAdd(Add(p, r), Add(p, s), g);
    assert Add(Add(p, r), Add(p, s)) == Add(r, s);
    var q :| Add(r, s) == Product(q, g);
    ProductHigh(q, g, degree);
    assert forall e :: e in r || e in s ==> e < degree;
    assert Add(r, s) == {};
    forall e: nat ensures e in r <==> e in s { AddIn(r, s, e); }
  }
}
