/** Cauchy matrices over GF(2^16): entry (i, j) is 1 / (x_i + y_j). */
module Cauchy {
  import opened Gf16
  import opened Gf16Field
  import opened Gf16Sums

  type Coords = nat -> Elem

  ghost function Recip(x: Elem, y: Elem): Elem { Inv(Add(x, y)) }

  ghost predicate Distinct(x: Coords, n: nat) {
    forall i: nat, j: nat | i < j < n :: x(i) != x(j)
  }

  ghost predicate Separate(x: Coords, y: Coords, n: nat) {
    forall i: nat, j: nat | i < n && j < n :: x(i) != y(j)
  }

  /** Row `x` of the Cauchy matrix times the vector `v`. */
  ghost function CauchyRow(n: nat, x: Elem, y: Coords, v: Coords): Elem {
    Sum(n, (j: nat) => Mul(v(j), Recip(x, y(j))))
  }

  lemma RecipInverse(x: Elem, y: Elem)
    requires x != y
    ensures Mul(Add(x, y), Recip(x, y)) == ONE && Add(x, y) != ZERO
  {
    hide *;
    AddEqualsZero(x, y);
    InverseLaw(Add(x, y));
    RecipDef(x, y);
  }

  lemma RecipDef(x: Elem, y: Elem) ensures Recip(x, y) == Inv(Add(x, y)) {}

  /** x + z = (x + y) + (y + z) */
  lemma AddVia(x: Elem, y: Elem, z: Elem)
    ensures Add(x, z) == Add(Add(x, y), Add(y, z))
  {
    hide *;
    AddAssoc(x, y, Add(y, z));
    AddAssoc(y, y, z);
    AddSelf(y);
    AddComm(ZERO, z);
    AddZero(z);
  }

  /** (x + z) / (x + y) = 1 + (y + z) / (x + y) */
  lemma PartialFraction(x: Elem, y: Elem, z: Elem)
    requires x != y
    ensures Mul(Add(x, z), Recip(x, y)) == Add(ONE, Mul(Add(y, z), Recip(x, y)))
  {
    hide *;
    AddVia(x, y, z);
    AddMul(Add(x, y), Add(y, z), Recip(x, y));
    RecipInverse(x, y);
  }

  /** 1 / (x + y) + 1 / (x' + y) = (x + x') / ((x + y) (x' + y)) */
  lemma RecipDifference(x: Elem, x': Elem, y: Elem)
    requires x != y && x' != y
    ensures Add(Recip(x, y), Recip(x', y)) == Mul(Add(x, x'), Mul(Recip(x, y), Recip(x', y)))
  {
    hide *;
    var p, q, r, s := Add(x, y), Add(x', y), Recip(x, y), Recip(x', y);
    calc {
      Mul(Add(x, x'), Mul(r, s));
      { AddVia(x, y, x'); AddComm(y, x'); AddMul(p, q, Mul(r, s)); }
      Add(Mul(p, Mul(r, s)), Mul(q, Mul(r, s)));
      { RecipInverse(x, y); MulAssoc(p, r, s); OneMul(s); }
      Add(s, Mul(q, Mul(r, s)));
      { MulComm(r, s); RecipInverse(x', y); MulAssoc(q, s, r); OneMul(r); }
      Add(s, r);
      { AddComm(s, r); }
      Add(r, s);
    }
  }

  /** The weight that eliminating the row `x'` and the column `y'` leaves on column `y`. */
  ghost function Reduced(v: Elem, x': Elem, y: Elem, y': Elem): Elem {
    Mul(v, Mul(Add(y, y'), Recip(x', y)))
  }

  /** Column `y` of the combination of two rows that cancels column `y'`. */
  lemma EliminateColumn(v: Elem, x: Elem, x': Elem, y: Elem, y': Elem)
    requires x != y && x' != y
    ensures Add(Mul(Add(x, y'), Mul(v, Recip(x, y))), Mul(Add(x', y'), Mul(v, Recip(x', y))))
         == Mul(Add(x, x'), Mul(Reduced(v, x', y, y'), Recip(x, y)))
  {
    var d, r, s := Add(y, y'), Recip(x, y), Recip(x', y);
    assert Reduced(v, x', y, y') == Mul(v, Mul(d, s));
    hide *;
    calc {
      Add(Mul(Add(x, y'), Mul(v, r)), Mul(Add(x', y'), Mul(v, s)));
      { Pull(v, Add(x, y'), r); Pull(v, Add(x', y'), s); }
      Add(Mul(v, Mul(Add(x, y'), r)), Mul(v, Mul(Add(x', y'), s)));
      { MulAdd(v, Mul(Add(x, y'), r), Mul(Add(x', y'), s)); }
      Mul(v, Add(Mul(Add(x, y'), r), Mul(Add(x', y'), s)));
      { PartialFraction(x, y, y'); PartialFraction(x', y, y'); }
      Mul(v, Add(Add(ONE, Mul(d, r)), Add(ONE, Mul(d, s))));
      { AddExchange(ONE, Mul(d, r), ONE, Mul(d, s)); AddSelf(ONE); AddComm(ZERO, Add(Mul(d, r), Mul(d, s)));
        AddZero(Add(Mul(d, r), Mul(d, s))); }
      Mul(v, Add(Mul(d, r), Mul(d, s)));
      { MulAdd(d, r, s); RecipDifference(x, x', y); }
      Mul(v, Mul(d, Mul(Add(x, x'), Mul(r, s))));
      { Pull(d, Add(x, x'), Mul(r, s)); Pull(v, Add(x, x'), Mul(d, Mul(r, s))); }
      Mul(Add(x, x'), Mul(v, Mul(d, Mul(r, s))));
      { MulComm(r, s); MulAssoc(d, s, r); MulAssoc(v, Mul(d, s), r); }
      Mul(Add(x, x'), Mul(Mul(v, Mul(d, s)), r));
    }
  }

  lemma Pull(a: Elem, b: Elem, c: Elem)
    ensures Mul(a, Mul(b, c)) == Mul(b, Mul(a, c))
  {
    hide *;
    MulAssoc(a, b, c);
    MulComm(a, b);
    MulAssoc(b, a, c);
  }

  /** In its own column the combination vanishes. */
  lemma EliminatePivot(v: Elem, x: Elem, x': Elem, y': Elem)
    requires x != y' && x' != y'
    ensures Add(Mul(Add(x, y'), Mul(v, Recip(x, y'))), Mul(Add(x', y'), Mul(v, Recip(x', y')))) == ZERO
  {
    hide *;
    Pull(v, Add(x, y'), Recip(x, y'));
    Pull(v, Add(x', y'), Recip(x', y'));
    RecipInverse(x, y');
    RecipInverse(x', y');
    AddSelf(Mul(v, ONE));
  }

  /** Combining row `x` with row `x'` of an n+1 system leaves row `x` of an n system. */
  lemma EliminateRow(n: nat, x: Elem, x': Elem, y: Coords, v: Coords)
    requires x != x'
    requires forall j: nat | j <= n :: x != y(j) && x' != y(j)
    requires CauchyRow(n + 1, x, y, v) == ZERO && CauchyRow(n + 1, x', y, v) == ZERO
    ensures CauchyRow(n, x, y, (j: nat) => Reduced(v(j), x', y(j), y(n))) == ZERO
  {
    hide Add, Mul, Recip, Reduced, Sum;
    var h := (j: nat) => Combined(x, x', y, y(n), v, j);
    CombineRows(n + 1, x, x', y, y(n), v, h);
    SumUnfold(n, h);
    EliminatePivot(v(n), x, x', y(n));
    AddZero(Sum(n, h));
    var u := (j: nat) => Reduced(v(j), x', y(j), y(n));
    var w := (j: nat) => Mul(u(j), Recip(x, y(j)));
    forall j: nat | j < n ensures h(j) == Mul(Add(x, x'), w(j)) {
      EliminateColumn(v(j), x, x', y(j), y(n));
    }
    SumScale(n, Add(x, x'), w, h);
    AddEqualsZero(x, x');
    NoZeroDivisors(Add(x, x'), Sum(n, w));
  }

  /** Term `j` of (x + y') * row x + (x' + y') * row x'. */
  ghost function Combined(x: Elem, x': Elem, y: Coords, y': Elem, v: Coords, j: nat): Elem {
    Add(Mul(Add(x, y'), Mul(v(j), Recip(x, y(j)))), Mul(Add(x', y'), Mul(v(j), Recip(x', y(j)))))
  }

  lemma CombineRows(n: nat, x: Elem, x': Elem, y: Coords, y': Elem, v: Coords, h: Coords)
    requires CauchyRow(n, x, y, v) == ZERO && CauchyRow(n, x', y, v) == ZERO
    requires forall j: nat | j < n :: h(j) == Combined(x, x', y, y', v, j)
    ensures Sum(n, h) == ZERO
  {
    hide Add, Mul, Recip, Sum;
    var f := (j: nat) => Mul(v(j), Recip(x, y(j)));
    var g := (j: nat) => Mul(v(j), Recip(x', y(j)));
    var fa := (j: nat) => Mul(Add(x, y'), f(j));
    var ga := (j: nat) => Mul(Add(x', y'), g(j));
    SumScale(n, Add(x, y'), f, fa);
    SumScale(n, Add(x', y'), g, ga);
    SumAdd(n, fa, ga, h);
    ZeroMul(Add(x, y'));
    ZeroMul(Add(x', y'));
    AddZero(ZERO);
  }

  lemma ReducedZero(v: Elem, x': Elem, y: Elem, y': Elem)
    requires y != y' && x' != y
    requires Reduced(v, x', y, y') == ZERO
    ensures v == ZERO
  {
    hide Add, Mul, Recip;
    AddEqualsZero(y, y');
    RecipInverse(x', y);
    var p := Mul(Add(y, y'), Recip(x', y));
    if p == ZERO {
      NoZeroDivisors(Add(y, y'), Recip(x', y));
      ZeroMul(Add(x', y));
      assert false;
    }
    MulComm(v, p);
    NoZeroDivisors(p, v);
  }

  /** Every square Cauchy matrix with distinct coordinates is nonsingular: only the zero vector is in its kernel. */
  lemma {:induction false} CauchyNonsingular(n: nat, x: Coords, y: Coords, v: Coords)
    requires Distinct(x, n) && Distinct(y, n) && Separate(x, y, n)
    requires forall i: nat | i < n :: CauchyRow(n, x(i), y, v) == ZERO
    ensures forall j: nat | j < n :: v(j) == ZERO
  {
    hide Add, Mul, Recip, Reduced;
    if n > 0 {
      var m := n - 1;
      var w := (j: nat) => Reduced(v(j), x(m), y(j), y(m));
      forall i: nat | i < m ensures CauchyRow(m, x(i), y, w) == ZERO {
        EliminateRow(m, x(i), x(m), y, v);
      }
      CauchyNonsingular(m, x, y, w);
      forall j: nat | j < m ensures v(j) == ZERO {
        assert w(j) == ZERO;
        ReducedZero(v(j), x(m), y(j), y(m));
      }
      var f := (j: nat) => Mul(v(j), Recip(x(m), y(j)));
      assert Sum(n, f) == ZERO;
      forall j: nat | j < m ensures f(j) == ZERO {
        ZeroMul(Recip(x(m), y(j)));
      }
      SumSingle(n, f, m);
      RecipInverse(x(m), y(m));
      if Recip(x(m), y(m)) == ZERO {
        ZeroMul(Add(x(m), y(m)));
        assert false;
      }
      MulComm(v(m), Recip(x(m), y(m)));
      NoZeroDivisors(Recip(x(m), y(m)), v(m));
    }
  }
}
