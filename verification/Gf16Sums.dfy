/** Finite sums of field elements. */
module Gf16Sums {
  import opened Gf16

  ghost function Sum(n: nat, f: nat -> Elem): Elem { if n == 0 then ZERO else Add(Sum(n - 1, f), f(n - 1)) }

  lemma SumUnfold(n: nat, f: nat -> Elem)
    ensures Sum(n + 1, f) == Add(Sum(n, f), f(n))
  {
  }

  lemma {:induction false} SumEqual(n: nat, f: nat -> Elem, g: nat -> Elem)
    requires forall i: nat | i < n :: f(i) == g(i)
    ensures Sum(n, f) == Sum(n, g)
  {
    hide Add;
    if n > 0 { SumEqual(n - 1, f, g); }
  }

  lemma {:induction false} SumZero(n: nat, f: nat -> Elem)
    requires forall i: nat | i < n :: f(i) == ZERO
    ensures Sum(n, f) == ZERO
  {
    hide Add;
    if n > 0 {
      SumZero(n - 1, f);
      AddZero(ZERO);
    }
  }

  lemma {:induction false} SumAdd(n: nat, f: nat -> Elem, g: nat -> Elem, h: nat -> Elem)
    requires forall i: nat | i < n :: h(i) == Add(f(i), g(i))
    ensures Sum(n, h) == Add(Sum(n, f), Sum(n, g))
  {
    hide Add;
    if n > 0 {
      SumAdd(n - 1, f, g, h);
      AddExchange(Sum(n - 1, f), Sum(n - 1, g), f(n - 1), g(n - 1));
    } else {
      AddZero(ZERO);
    }
  }

  lemma {:induction false} SumScale(n: nat, c: Elem, f: nat -> Elem, h: nat -> Elem)
    requires forall i: nat | i < n :: h(i) == Mul(c, f(i))
    ensures Sum(n, h) == Mul(c, Sum(n, f))
  {
    hide Add, Mul;
    if n > 0 {
      SumScale(n - 1, c, f, h);
      MulAdd(c, Sum(n - 1, f), f(n - 1));
    } else {
      ZeroMul(c);
    }
  }

  /** A sum with at most one nonzero term. */
  lemma {:induction false} SumSingle(n: nat, f: nat -> Elem, k: nat)
    requires k < n
    requires forall i: nat | i < n && i != k :: f(i) == ZERO
    ensures Sum(n, f) == f(k)
  {
    hide Add;
    if k == n - 1 {
      SumZero(n - 1, f);
      AddZero(f(k));
    } else {
      SumSingle(n - 1, f, k);
      AddZero(f(k));
    }
  }

  lemma {:induction false} SumSwap(n: nat, m: nat, f: (nat, nat) -> Elem)
    ensures Sum(n, (i: nat) => Sum(m, (j: nat) => f(i, j))) == Sum(m, (j: nat) => Sum(n, (i: nat) => f(i, j)))
  {
    hide Add;
    var rows := (i: nat) => Sum(m, (j: nat) => f(i, j));
    var cols := (j: nat) => Sum(n, (i: nat) => f(i, j));
    if n == 0 {
      SumZero(m, cols);
    } else {
      SumSwap(n - 1, m, f);
      var cols' := (j: nat) => Sum(n - 1, (i: nat) => f(i, j));
      var last := (j: nat) => f(n - 1, j);
      SumAdd(m, cols', last, cols);
    }
  }

  /** A weighted sum of sums, summed the other way round. */
  lemma SumScaleSwap(n: nat, m: nat, s: nat -> Elem, g: (nat, nat) -> Elem, rows: nat -> Elem, cols: nat -> Elem)
    requires forall r: nat | r < n :: rows(r) == Mul(s(r), Sum(m, (d: nat) => g(r, d)))
    requires forall d: nat | d < m :: cols(d) == Sum(n, (r: nat) => Mul(s(r), g(r, d)))
    ensures Sum(n, rows) == Sum(m, cols)
  {
    hide Add, Mul, Sum;
    var t := (r: nat, d: nat) => Mul(s(r), g(r, d));
    var byRow := (r: nat) => Sum(m, (d: nat) => t(r, d));
    var byCol := (d: nat) => Sum(n, (r: nat) => t(r, d));
    forall r: nat | r < n ensures rows(r) == byRow(r) {
      SumScale(m, s(r), (d: nat) => g(r, d), (d: nat) => t(r, d));
    }
    SumEqual(n, rows, byRow);
    forall d: nat | d < m ensures cols(d) == byCol(d) {
      SumEqual(n, (r: nat) => Mul(s(r), g(r, d)), (r: nat) => t(r, d));
    }
    SumEqual(m, cols, byCol);
    SumSwap(n, m, t);
  }
}
