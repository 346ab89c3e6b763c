/** Polynomials over GF(2), each the set of its exponents, and division with remainder. */
module Gf2Polynomials {

  type Poly = set<nat>

  function Plus(a: Poly, b: Poly): Poly { (a - b) + (b - a) }

  /** a times x^k. */
  ghost function Raise(a: Poly, k: nat): (p: Poly)
    ensures forall e: nat :: e in p <==> e >= k && e - k in a
  {
    set e | e in a :: e + k
  }

  /** The product of p and the polynomial with coefficients q, highest first. */
  ghost function Product(q: seq<bool>, p: Poly): Poly {
    if q == [] then {}
    else Plus(Raise(Product(q[..|q| - 1], p), 1), Select(q[|q| - 1], p))
  }

  function Select(on: bool, p: Poly): Poly { if on then p else {} }

  ghost predicate Below(p: Poly, n: nat) { forall e | e in p :: e < n }

  ghost predicate Degree(p: Poly, n: nat) { n in p && Below(p, n + 1) }

  /** a and b differ by a multiple of g. */
  ghost predicate Congruent(a: Poly, b: Poly, g: Poly) { exists q :: Plus(a, b) == Product(q, g) }

  /** r is what division of a by g leaves. */
  ghost predicate IsRemainder(r: Poly, a: Poly, g: Poly) {
    Congruent(a, r, g) && forall e | e in r :: exists d :: d in g && e < d
  }

  // ----- algebra

  lemma PlusAssoc(a: Poly, b: Poly, c: Poly) ensures Plus(Plus(a, b), c) == Plus(a, Plus(b, c)) {}

  lemma PlusExchange(a: Poly, b: Poly, c: Poly, d: Poly)
    ensures Plus(Plus(a, b), Plus(c, d)) == Plus(Plus(a, c), Plus(b, d))
  {
  }

  lemma PlusCancel(a: Poly, b: Poly, c: Poly) ensures Plus(Plus(a, c), Plus(b, c)) == Plus(a, b) {}

  lemma RaisePlus(a: Poly, b: Poly, k: nat) ensures Raise(Plus(a, b), k) == Plus(Raise(a, k), Raise(b, k)) {}

  lemma RaiseTwice(a: Poly, k: nat, n: nat) ensures Raise(Raise(a, k), n) == Raise(a, k + n) {}

  lemma RaiseNone(a: Poly) ensures Raise(a, 0) == a {}

  lemma ProductSnoc(q: seq<bool>, on: bool, p: Poly)
    ensures Product(q + [on], p) == Plus(Raise(Product(q, p), 1), Select(on, p))
  {
    assert (q + [on])[..|q|] == q;
  }

  // ----- congruence

  lemma CongruentToItself(a: Poly, g: Poly)
    ensures Congruent(a, a, g)
  {
    assert Plus(a, a) == Product([], g);
  }

  /** One step of long division: both sides times x, and one multiple of g more. */
  lemma CongruentStep(a: Poly, b: Poly, g: Poly, on: bool)
    requires Congruent(a, b, g)
    ensures Congruent(Raise(a, 1), Plus(Raise(b, 1), Select(on, g)), g)
  {
    hide Plus, Raise, Select;
    var q :| Plus(a, b) == Product(q, g);
    ProductSnoc(q, on, g);
    RaisePlus(a, b, 1);
    PlusAssoc(Raise(a, 1), Raise(b, 1), Select(on, g));
    assert Plus(Raise(a, 1), Plus(Raise(b, 1), Select(on, g))) == Product(q + [on], g);
  }

  lemma CongruentPlus(a: Poly, b: Poly, c: Poly, g: Poly)
    requires Congruent(a, b, g)
    ensures Congruent(Plus(a, c), Plus(b, c), g)
  {
    hide Plus;
    var q :| Plus(a, b) == Product(q, g);
    PlusCancel(a, b, c);
    assert Plus(Plus(a, c), Plus(b, c)) == Product(q, g);
  }

  // ----- a remainder is unique

  function AddCoefficients(q: seq<bool>, t: seq<bool>): seq<bool> {
    if q == [] then t
    else if t == [] then q
    else AddCoefficients(q[..|q| - 1], t[..|t| - 1]) + [q[|q| - 1] != t[|t| - 1]]
  }

  lemma {:induction false} ProductAdd(q: seq<bool>, t: seq<bool>, p: Poly)
    ensures Product(AddCoefficients(q, t), p) == Plus(Product(q, p), Product(t, p))
    decreases |q|
  {
    hide Raise;
    if q != [] && t != [] {
      var qs, ts, u, v := q[..|q| - 1], t[..|t| - 1], q[|q| - 1], t[|t| - 1];
      ProductAdd(qs, ts, p);
      ProductSnoc(AddCoefficients(qs, ts), u != v, p);
      RaisePlus(Product(qs, p), Product(ts, p), 1);
      assert Select(u != v, p) == Plus(Select(u, p), Select(v, p));
      PlusExchange(Raise(Product(qs, p), 1), Select(u, p), Raise(Product(ts, p), 1), Select(v, p));
    }
  }

  /** A multiple of g is zero or reaches its degree. */
  lemma {:induction false} MultipleReaches(q: seq<bool>, g: Poly, n: nat)
    requires Degree(g, n)
    ensures Product(q, g) == {} || exists e :: e in Product(q, g) && e >= n
  {
    if q != [] {
      var most := Product(q[..|q| - 1], g);
      MultipleReaches(q[..|q| - 1], g, n);
      if most == {} {
        assert Raise(most, 1) == {};
      } else {
        var e :| e in most && e >= n;
        assert e + 1 in Raise(most, 1) && e + 1 in Product(q, g);
      }
    }
  }

  lemma RemainderUnique(r: Poly, s: Poly, a: Poly, g: Poly, n: nat)
    requires Degree(g, n) && IsRemainder(r, a, g) && IsRemainder(s, a, g)
    ensures r == s
  {
    var q :| Plus(a, r) == Product(q, g);
    var t :| Plus(a, s) == Product(t, g);
    ProductAdd(q, t, g);
    MultipleReaches(AddCoefficients(q, t), g, n);
    assert Plus(Plus(a, r), Plus(a, s)) == Plus(r, s);
  }
}
