/** Inversion of a square matrix over GF(2^16) by LU factorisation with row exchanges. */
module SquareInverse {
  import opened Gf16
  import opened Gf16Field
  import opened Gf16Sums
  import opened GfTables

  type Matrix = seq<seq<Elem>>
  type Vector = nat -> Elem

  predicate IsSquare(m: Matrix, n: nat) {
    |m| == n && forall i: nat | i < n :: |m[i]| == n
  }

  /** Entry (i, j), zero outside the matrix. */
  function At(m: Matrix, i: nat, j: nat): Elem {
    if i < |m| && j < |m[i]| then m[i][j] else ZERO
  }

  ghost function RowDot(m: Matrix, n: nat, i: nat, x: Vector): Elem {
    Sum(n, (j: nat) => Mul(At(m, i, j), x(j)))
  }

  ghost predicate InKernel(m: Matrix, n: nat, x: Vector) {
    forall i: nat | i < n :: RowDot(m, n, i, x) == ZERO
  }

  ghost predicate IsZero(x: Vector, n: nat) {
    forall j: nat | j < n :: x(j) == ZERO
  }

  /** Only the zero vector is mapped to zero. */
  ghost predicate Nonsingular(m: Matrix, n: nat) {
    forall x: Vector | InKernel(m, n, x) :: IsZero(x, n)
  }

  function Unit(i: nat, j: nat): Elem { if i == j then ONE else ZERO }

  ghost function Column(m: Matrix, c: nat): Vector { (j: nat) => At(m, j, c) }

  /** The matrix product m * w is the identity. */
  ghost predicate IsRightInverse(m: Matrix, w: Matrix, n: nat) {
    forall i: nat, c: nat | i < n && c < n :: RowDot(m, n, i, Column(w, c)) == Unit(i, c)
  }

  // ----- the factorisation held in one matrix: L strictly below the diagonal, U on and above it

  function Upper(lu: Matrix, k: nat, j: nat): Elem { if j >= k then At(lu, k, j) else ZERO }

  function Residual(lu: Matrix, i: nat, lim: nat, j: nat): Elem { if j >= lim then At(lu, i, j) else ZERO }

  ghost function Eliminated(lu: Matrix, i: nat, lim: nat, j: nat): Elem {
    Sum(lim, (k: nat) => Mul(At(lu, i, k), Upper(lu, k, j)))
  }

  /** Row `p` of the input is the combination of the first `lim` rows of U that row `i` of `lu` records,
      plus what is left of row `i`. */
  ghost predicate RowFactored(m: Matrix, n: nat, lu: Matrix, p: nat, i: nat, lim: nat) {
    forall j: nat | j < n :: At(m, p, j) == Add(Eliminated(lu, i, lim, j), Residual(lu, i, lim, j))
  }

  function Min(a: nat, b: nat): nat { if a < b then a else b }

  ghost predicate Factored(m: Matrix, n: nat, lu: Matrix, rows: seq<nat>, col: nat) {
    && |rows| == n
    && forall i: nat | i < n :: RowFactored(m, n, lu, rows[i], i, Min(i, col))
  }

  ghost predicate PivotsNonzero(lu: Matrix, col: nat) {
    forall k: nat | k < col :: At(lu, k, k) != ZERO
  }

  ghost function UpperDot(lu: Matrix, n: nat, k: nat, x: Vector): Elem {
    Sum(n, (j: nat) => Mul(Upper(lu, k, j), x(j)))
  }

  ghost function ResidualDot(lu: Matrix, n: nat, i: nat, lim: nat, x: Vector): Elem {
    Sum(n, (j: nat) => Mul(Residual(lu, i, lim, j), x(j)))
  }

  /** A factored row applied to a vector. */
  lemma FactoredRowDot(m: Matrix, n: nat, lu: Matrix, p: nat, i: nat, lim: nat, x: Vector)
    requires RowFactored(m, n, lu, p, i, lim)
    ensures RowDot(m, n, p, x)
         == Add(Sum(lim, (k: nat) => Mul(At(lu, i, k), UpperDot(lu, n, k, x))), ResidualDot(lu, n, i, lim, x))
  {
    hide Add, Mul, At, Upper, Residual;
    var term := (j: nat, k: nat) => Mul(Mul(At(lu, i, k), Upper(lu, k, j)), x(j));
    var a := (j: nat) => Mul(At(m, p, j), x(j));
    var e := (j: nat) => Sum(lim, (k: nat) => term(j, k));
    var r := (j: nat) => Mul(Residual(lu, i, lim, j), x(j));
    forall j: nat | j < n ensures a(j) == Add(e(j), r(j)) {
      AddMul(Eliminated(lu, i, lim, j), Residual(lu, i, lim, j), x(j));
      ScaleEliminated(lu, i, lim, j, x(j), (k: nat) => term(j, k));
    }
    SumAdd(n, e, r, a);
    SumSwap(n, lim, term);
    var left := (k: nat) => Sum(n, (j: nat) => term(j, k));
    var right := (k: nat) => Mul(At(lu, i, k), UpperDot(lu, n, k, x));
    forall k: nat | k < lim ensures left(k) == right(k) {
      var u := (j: nat) => Mul(Upper(lu, k, j), x(j));
      var t := (j: nat) => term(j, k);
      forall j: nat | j < n ensures t(j) == Mul(At(lu, i, k), u(j)) {
        MulAssoc(At(lu, i, k), Upper(lu, k, j), x(j));
      }
      SumScale(n, At(lu, i, k), u, t);
    }
    SumEqual(lim, left, right);
  }

  lemma ScaleEliminated(lu: Matrix, i: nat, lim: nat, j: nat, c: Elem, t: Vector)
    requires forall k: nat | k < lim :: t(k) == Mul(Mul(At(lu, i, k), Upper(lu, k, j)), c)
    ensures Mul(Eliminated(lu, i, lim, j), c) == Sum(lim, t)
  {
    hide Add, Mul, At, Upper;
    var f := (k: nat) => Mul(At(lu, i, k), Upper(lu, k, j));
    forall k: nat | k < lim ensures t(k) == Mul(c, f(k)) {
      MulComm(c, f(k));
    }
    SumScale(lim, c, f, t);
    MulComm(c, Sum(lim, f));
  }

  lemma FactoredRowDotWith(m: Matrix, n: nat, lu: Matrix, p: nat, i: nat, lim: nat, x: Vector, y: Vector)
    requires RowFactored(m, n, lu, p, i, lim)
    requires forall k: nat | k < lim :: UpperDot(lu, n, k, x) == y(k)
    ensures RowDot(m, n, p, x) == Add(Sum(lim, (k: nat) => Mul(At(lu, i, k), y(k))), ResidualDot(lu, n, i, lim, x))
  {
    hide Add, Mul, At, UpperDot, ResidualDot, RowDot, RowFactored, Sum;
    FactoredRowDot(m, n, lu, p, i, lim, x);
    SumEqual(lim, (k: nat) => Mul(At(lu, i, k), UpperDot(lu, n, k, x)), (k: nat) => Mul(At(lu, i, k), y(k)));
  }

  /** The diagonal row: what is left of row i beside the first i rows of U is row i of U. */
  lemma ResidualIsUpper(lu: Matrix, n: nat, i: nat, x: Vector)
    ensures ResidualDot(lu, n, i, i, x) == UpperDot(lu, n, i, x)
  {
    hide Add, Mul, At, Sum;
    var f := (j: nat) => Mul(Residual(lu, i, i, j), x(j));
    var g := (j: nat) => Mul(Upper(lu, i, j), x(j));
    forall j: nat | j < n ensures f(j) == g(j) {
      assert Residual(lu, i, i, j) == Upper(lu, i, j);
    }
    SumEqual(n, f, g);
  }

  // ----- steps of the factorisation

  /** A factored row only depends on itself and the rows of U it uses. */
  lemma RowFactoredFrame(m: Matrix, n: nat, lu: Matrix, lu': Matrix, p: nat, i: nat, i': nat, lim: nat)
    requires RowFactored(m, n, lu, p, i, lim)
    requires forall j: nat :: At(lu', i', j) == At(lu, i, j)
    requires forall k: nat, j: nat | k < lim :: At(lu', k, j) == At(lu, k, j)
    ensures RowFactored(m, n, lu', p, i', lim)
  {
    hide Add, Mul, At, Sum;
    forall j: nat | j < n
      ensures At(m, p, j) == Add(Eliminated(lu', i', lim, j), Residual(lu', i', lim, j))
    {
      SumEqual(lim, (k: nat) => Mul(At(lu, i, k), Upper(lu, k, j)), (k: nat) => Mul(At(lu', i', k), Upper(lu', k, j)));
    }
  }

  /** `lu'` is `lu` after clearing column `col` of row `row` with the factor `f`. */
  ghost predicate RowReduced(lu: Matrix, lu': Matrix, n: nat, row: nat, col: nat, f: Elem) {
    && (forall k: nat, j: nat | k != row :: At(lu', k, j) == At(lu, k, j))
    && (forall j: nat | j < col :: At(lu', row, j) == At(lu, row, j))
    && At(lu', row, col) == f
    && (forall j: nat | col < j < n :: At(lu', row, j) == Add(At(lu, row, j), Mul(f, At(lu, col, j))))
  }

  lemma ReduceRow(m: Matrix, n: nat, lu: Matrix, lu': Matrix, p: nat, row: nat, col: nat, f: Elem)
    requires col < row && RowFactored(m, n, lu, p, row, col)
    requires RowReduced(lu, lu', n, row, col, f)
    requires Mul(f, At(lu, col, col)) == At(lu, row, col)
    ensures RowFactored(m, n, lu', p, row, col + 1)
  {
    hide Add, Mul, At, Sum;
    forall j: nat | j < n
      ensures At(m, p, j) == Add(Eliminated(lu', row, col + 1, j), Residual(lu', row, col + 1, j))
    {
      var g := (k: nat) => Mul(At(lu, row, k), Upper(lu, k, j));
      var g' := (k: nat) => Mul(At(lu', row, k), Upper(lu', k, j));
      SumEqual(col, g, g');
      SumUnfold(col, g');
      AddAssoc(Sum(col, g), Mul(f, Upper(lu, col, j)), Residual(lu', row, col + 1, j));
      if j < col {
        ZeroMul(f);
        AddZero(ZERO);
      } else if j == col {
        AddZero(At(lu, row, col));
      } else {
        var a, u := At(lu, row, j), Mul(f, At(lu, col, j));
        AddComm(a, u);
        AddAssoc(u, u, a);
        AddSelf(u);
        AddZero(a);
      }
    }
  }

  // ----- solving with the factors

  /** Row k of U applied to `x`, when `x` differs from `x0` in slot k only and `x0` is zero there. */
  lemma UpperDotUpdate(lu: Matrix, n: nat, k: nat, x0: Vector, x: Vector)
    requires k < n && x0(k) == ZERO
    requires forall j: nat | j != k :: x(j) == x0(j)
    ensures UpperDot(lu, n, k, x) == Add(UpperDot(lu, n, k, x0), Mul(At(lu, k, k), x(k)))
  {
    hide Add, Mul, At, Sum;
    var f := (j: nat) => Mul(Upper(lu, k, j), x0(j));
    var g := (j: nat) => if j == k then Mul(At(lu, k, k), x(k)) else ZERO;
    var h := (j: nat) => Mul(Upper(lu, k, j), x(j));
    forall j: nat | j < n ensures h(j) == Add(f(j), g(j)) {
      ZeroMul(Upper(lu, k, j));
      AddZero(h(j));
    }
    SumAdd(n, f, g, h);
    SumSingle(n, g, k);
  }

  /** Rows of U below slot k do not see slot k. */
  lemma UpperDotBelow(lu: Matrix, n: nat, r: nat, k: nat, x0: Vector, x: Vector)
    requires k < r
    requires forall j: nat | j != k :: x(j) == x0(j)
    ensures UpperDot(lu, n, r, x) == UpperDot(lu, n, r, x0)
  {
    hide Add, Mul, At, Sum;
    var f := (j: nat) => Mul(Upper(lu, r, j), x0(j));
    var h := (j: nat) => Mul(Upper(lu, r, j), x(j));
    forall j: nat | j < n ensures h(j) == f(j) {
      if j == k {
        ZeroMul(x0(j));
        ZeroMul(x(j));
      }
    }
    SumEqual(n, h, f);
  }

  /** The value that makes row k of U give `y`. */
  lemma SolveSlot(lu: Matrix, n: nat, k: nat, x0: Vector, x: Vector, y: Elem)
    requires k < n && x0(k) == ZERO && At(lu, k, k) != ZERO
    requires forall j: nat | j != k :: x(j) == x0(j)
    requires x(k) == Mul(Add(y, UpperDot(lu, n, k, x0)), Inv(At(lu, k, k)))
    ensures UpperDot(lu, n, k, x) == y
  {
    hide Add, Mul, At, UpperDot, Inv;
    var d, t := At(lu, k, k), UpperDot(lu, n, k, x0);
    UpperDotUpdate(lu, n, k, x0, x);
    MulComm(Add(y, t), Inv(d));
    MulAssoc(d, Inv(d), Add(y, t));
    InverseLaw(d);
    OneMul(Add(y, t));
    AddComm(y, t);
    AddAssoc(t, t, y);
    AddSelf(t);
    AddZero(y);
  }

  ghost predicate UpperSolved(lu: Matrix, n: nat, from: nat, to: nat, x: Vector, y: Vector) {
    forall r: nat | from <= r < to :: UpperDot(lu, n, r, x) == y(r)
  }

  /** A nonzero vector that the first `col` rows of U annihilate. */
  lemma {:induction false} KernelVector(lu: Matrix, n: nat, col: nat, k: nat) returns (x: Vector)
    requires k <= col < n && PivotsNonzero(lu, col)
    ensures x(col) == ONE && forall j: nat | j < k || j > col :: x(j) == ZERO
    ensures UpperSolved(lu, n, k, col, x, (j: nat) => ZERO)
    decreases col - k
  {
    hide Add, Mul, At, UpperDot, Inv;
    if k == col {
      x := (j: nat) => if j == col then ONE else ZERO;
    } else {
      var x0 := KernelVector(lu, n, col, k + 1);
      var v := Mul(Add(ZERO, UpperDot(lu, n, k, x0)), Inv(At(lu, k, k)));
      x := (j: nat) => if j == k then v else x0(j);
      SolveSlot(lu, n, k, x0, x, ZERO);
      forall r: nat | k < r < col ensures UpperDot(lu, n, r, x) == ZERO {
        UpperDotBelow(lu, n, r, k, x0, x);
      }
    }
  }
  
  // ----- which rows the factorisation used

  ghost predicate Covers(rows: seq<nat>, n: nat) {
    && |rows| == n
    && (forall i: nat | i < n :: rows[i] < n)
    && (forall r: nat | r < n :: r in rows)
  }

  /** When no row can serve as pivot for column `col`, the input is singular. */
  lemma NoPivotSingular(m: Matrix, n: nat, lu: Matrix, rows: seq<nat>, col: nat)
    requires col < n && Covers(rows, n)
    requires Factored(m, n, lu, rows, col) && PivotsNonzero(lu, col)
    requires forall i: nat | col <= i < n :: At(lu, i, col) == ZERO
    ensures !Nonsingular(m, n)
  {
    hide Add, Mul, At, UpperDot, ResidualDot, RowDot, RowFactored, Sum;
    var x := KernelVector(lu, n, col, 0);
    var zero := (j: nat) => ZERO;
    forall p: nat | p < n ensures RowDot(m, n, p, x) == ZERO {
      assert p in rows;
      var i: nat :| i < n && rows[i] == p;
      var lim := Min(i, col);
      FactoredRowDotWith(m, n, lu, p, i, lim, x, zero);
      var f := (k: nat) => Mul(At(lu, i, k), zero(k));
      forall k: nat | k < lim ensures f(k) == ZERO { ZeroMul(At(lu, i, k)); }
      SumZero(lim, f);
      if i < col {
        ResidualIsUpper(lu, n, i, x);
      } else {
        ResidualVanishes(lu, n, i, col, x);
      }
      AddZero(ZERO);
    }
    assert InKernel(m, n, x);
    assert ONE != ZERO;
    assert !IsZero(x, n);
  }

  lemma ResidualVanishes(lu: Matrix, n: nat, i: nat, col: nat, x: Vector)
    requires At(lu, i, col) == ZERO && forall j: nat | j > col :: x(j) == ZERO
    ensures ResidualDot(lu, n, i, col, x) == ZERO
  {
    hide Add, Mul, At, Sum;
    var f := (j: nat) => Mul(Residual(lu, i, col, j), x(j));
    forall j: nat | j < n ensures f(j) == ZERO {
      ZeroMul(x(j));
      ZeroMul(Residual(lu, i, col, j));
    }
    SumZero(n, f);
  }

  /** A complete factorisation with nonzero pivots proves the input nonsingular. */
  lemma FactoredNonsingular(m: Matrix, n: nat, lu: Matrix, rows: seq<nat>)
    requires Covers(rows, n) && Factored(m, n, lu, rows, n) && PivotsNonzero(lu, n)
    ensures Nonsingular(m, n)
  {
    hide Add, Mul, At, UpperDot, RowDot, RowFactored, Sum;
    forall x: Vector | InKernel(m, n, x) ensures IsZero(x, n) {
      UpperAnnihilates(m, n, lu, rows, x, n);
      UpperKernelZero(lu, n, 0, x);
    }
  }

  lemma {:induction false} UpperAnnihilates(m: Matrix, n: nat, lu: Matrix, rows: seq<nat>, x: Vector, i: nat)
    requires i <= n && Covers(rows, n) && Factored(m, n, lu, rows, n) && InKernel(m, n, x)
    ensures UpperSolved(lu, n, 0, i, x, (j: nat) => ZERO)
  {
    hide Add, Mul, At, UpperDot, ResidualDot, RowDot, RowFactored, Sum;
    if i > 0 {
      var r := i - 1;
      UpperAnnihilates(m, n, lu, rows, x, r);
      var zero := (j: nat) => ZERO;
      FactoredRowDotWith(m, n, lu, rows[r], r, r, x, zero);
      var f := (k: nat) => Mul(At(lu, r, k), zero(k));
      forall k: nat | k < r ensures f(k) == ZERO { ZeroMul(At(lu, r, k)); }
      SumZero(r, f);
      ResidualIsUpper(lu, n, r, x);
      AddZero(UpperDot(lu, n, r, x));
    }
  }

  lemma {:induction false} UpperKernelZero(lu: Matrix, n: nat, k: nat, x: Vector)
    requires k <= n && PivotsNonzero(lu, n) && UpperSolved(lu, n, 0, n, x, (j: nat) => ZERO)
    ensures forall j: nat | k <= j < n :: x(j) == ZERO
    decreases n - k
  {
    hide Add, Mul, At, Sum;
    if k < n {
      UpperKernelZero(lu, n, k + 1, x);
      var f := (j: nat) => Mul(Upper(lu, k, j), x(j));
      forall j: nat | j < n && j != k ensures f(j) == ZERO {
        ZeroMul(x(j));
        ZeroMul(Upper(lu, k, j));
      }
      SumSingle(n, f, k);
      assert UpperDot(lu, n, k, x) == Sum(n, f);
      NoZeroDivisors(At(lu, k, k), x(k));
    }
  }

  /** Row i of L, without its unit diagonal, applied to `y`. */
  ghost function LowerDot(lu: Matrix, i: nat, y: Vector): Elem { LowerPart(lu, i, i, y) }

  ghost function LowerPart(lu: Matrix, i: nat, j: nat, y: Vector): Elem {
    Sum(j, (k: nat) => Mul(At(lu, i, k), y(k)))
  }

  /** L y = P e_c in the first `to` rows. */
  ghost predicate LowerSolved(lu: Matrix, rows: seq<nat>, c: nat, y: Vector, to: nat)
    requires to <= |rows|
  {
    forall i: nat | i < to :: y(i) == Add(Unit(rows[i], c), LowerDot(lu, i, y))
  }

  /** Solving L y = P e_c and U x = y solves A x = e_c. */
  lemma SolvedColumn(m: Matrix, n: nat, lu: Matrix, rows: seq<nat>, c: nat, x: Vector, y: Vector)
    requires Covers(rows, n) && Factored(m, n, lu, rows, n)
    requires LowerSolved(lu, rows, c, y, n)
    requires UpperSolved(lu, n, 0, n, x, y)
    ensures forall p: nat | p < n :: RowDot(m, n, p, x) == Unit(p, c)
  {
    hide Add, UpperDot, RowDot, RowFactored, LowerDot, Unit;
    forall p: nat | p < n ensures RowDot(m, n, p, x) == Unit(p, c) {
      assert p in rows;
      var i: nat :| i < n && rows[i] == p;
      FactoredDiagonalRow(m, n, lu, p, i, x, y);
      var s := LowerDot(lu, i, y);
      AddComm(Unit(p, c), s);
      AddAssoc(s, s, Unit(p, c));
      AddSelf(s);
      AddZero(Unit(p, c));
    }
  }

  lemma FactoredDiagonalRow(m: Matrix, n: nat, lu: Matrix, p: nat, i: nat, x: Vector, y: Vector)
    requires i < n && RowFactored(m, n, lu, p, i, i) && UpperSolved(lu, n, 0, n, x, y)
    ensures RowDot(m, n, p, x) == Add(LowerDot(lu, i, y), y(i))
  {
    hide Add, Mul, At, UpperDot, ResidualDot, RowDot, RowFactored, Sum;
    FactoredRowDotWith(m, n, lu, p, i, i, x, y);
    ResidualIsUpper(lu, n, i, x);
  }

  // ----- a right inverse of a nonsingular matrix is a left inverse

  lemma RightInverseIsLeft(m: Matrix, w: Matrix, n: nat)
    requires Nonsingular(m, n) && IsRightInverse(m, w, n)
    ensures IsRightInverse(w, m, n)
  {
    hide Add, Mul, At, Sum, RowDot;
    forall j: nat, c: nat | j < n && c < n ensures RowDot(w, n, j, Column(m, c)) == Unit(j, c) {
      var z := (j: nat) => Add(RowDot(w, n, j, Column(m, c)), Unit(j, c));
      forall i: nat | i < n ensures RowDot(m, n, i, z) == ZERO {
        DefectInKernel(m, w, n, i, c, z);
      }
      assert InKernel(m, n, z);
      assert IsZero(z, n);
      assert z(j) == ZERO;
      AddEqualsZero(RowDot(w, n, j, Column(m, c)), Unit(j, c));
    }
  }

  lemma DefectInKernel(m: Matrix, w: Matrix, n: nat, i: nat, c: nat, z: Vector)
    requires IsRightInverse(m, w, n) && i < n && c < n
    requires forall j: nat | j < n :: z(j) == Add(RowDot(w, n, j, Column(m, c)), Unit(j, c))
    ensures RowDot(m, n, i, z) == ZERO
  {
    hide Add, Mul, At, Sum;
    var whole := (j: nat) => Mul(At(m, i, j), z(j));
    var product := (j: nat) => Mul(At(m, i, j), RowDot(w, n, j, Column(m, c)));
    var diagonal := (j: nat) => Mul(At(m, i, j), Unit(j, c));
    forall j: nat | j < n ensures whole(j) == Add(product(j), diagonal(j)) {
      MulAdd(At(m, i, j), RowDot(w, n, j, Column(m, c)), Unit(j, c));
    }
    SumAdd(n, product, diagonal, whole);
    UnitDot(n, (j: nat) => At(m, i, j), c, diagonal);
    TripleProduct(m, w, n, i, c, product);
    AddSelf(At(m, i, c));
  }

  lemma UnitDot(n: nat, a: Vector, c: nat, f: Vector)
    requires c < n && forall j: nat | j < n :: f(j) == Mul(a(j), Unit(j, c))
    ensures Sum(n, f) == a(c)
  {
    hide Mul, Sum;
    forall j: nat | j < n && j != c ensures f(j) == ZERO {
      ZeroMul(a(j));
    }
    SumSingle(n, f, c);
    MulOne(a(c));
  }

  /** Row i of m * (w * m) is row i of (m * w) * m, that is of m. */
  lemma TripleProduct(m: Matrix, w: Matrix, n: nat, i: nat, c: nat, product: Vector)
    requires IsRightInverse(m, w, n) && i < n && c < n
    requires forall j: nat | j < n :: product(j) == Mul(At(m, i, j), RowDot(w, n, j, Column(m, c)))
    ensures Sum(n, product) == At(m, i, c)
  {
    hide Add, Mul, At, Sum;
    var term := (j: nat, k: nat) => Mul(Mul(At(m, i, j), At(w, j, k)), At(m, k, c));
    var byRow := (j: nat) => Sum(n, (k: nat) => term(j, k));
    var byColumn := (k: nat) => Sum(n, (j: nat) => term(j, k));
    forall j: nat | j < n ensures product(j) == byRow(j) {
      var f := (k: nat) => Mul(At(w, j, k), At(m, k, c));
      var t := (k: nat) => term(j, k);
      forall k: nat | k < n ensures t(k) == Mul(At(m, i, j), f(k)) {
        MulAssoc(At(m, i, j), At(w, j, k), At(m, k, c));
      }
      SumScale(n, At(m, i, j), f, t);
      SumEqual(n, f, (k: nat) => Mul(At(w, j, k), Column(m, c)(k)));
    }
    SumEqual(n, product, byRow);
    SumSwap(n, n, term);
    var picked := (k: nat) => Mul(At(m, k, c), Unit(k, i));
    forall k: nat | k < n ensures byColumn(k) == picked(k) {
      var f := (j: nat) => Mul(At(m, i, j), At(w, j, k));
      var t := (j: nat) => term(j, k);
      forall j: nat | j < n ensures t(j) == Mul(At(m, k, c), f(j)) {
        MulComm(At(m, k, c), f(j));
      }
      SumScale(n, At(m, k, c), f, t);
      var g := (j: nat) => Mul(At(m, i, j), Column(w, k)(j));
      forall j: nat | j < n ensures f(j) == g(j) {
        assert Column(w, k)(j) == At(w, j, k);
      }
      SumEqual(n, f, g);
      assert RowDot(m, n, i, Column(w, k)) == Unit(i, k);
    }
    SumEqual(n, byColumn, picked);
    UnitDot(n, (k: nat) => At(m, k, c), i, picked);
  }

  // ----- the algorithm

  function SwapRows<T>(s: seq<T>, a: nat, b: nat): seq<T>
    requires a < |s| && b < |s|
  {
    s[a := s[b]][b := s[a]]
  }

  lemma SwapCovers(rows: seq<nat>, n: nat, a: nat, b: nat)
    requires Covers(rows, n) && a < n && b < n
    ensures Covers(SwapRows(rows, a, b), n)
  {
    var rows' := SwapRows(rows, a, b);
    forall r: nat | r < n ensures r in rows' {
      assert r in rows;
      var i :| 0 <= i < n && rows[i] == r;
      assert rows'[if i == a then b else if i == b then a else i] == r;
    }
  }

  /** Exchanging two rows that are not yet eliminated. */
  lemma SwapFactored(m: Matrix, n: nat, lu: Matrix, rows: seq<nat>, col: nat, a: nat, b: nat)
    requires IsSquare(lu, n) && |rows| == n && Factored(m, n, lu, rows, col)
    requires col <= a < n && col <= b < n
    ensures Factored(m, n, SwapRows(lu, a, b), SwapRows(rows, a, b), col)
  {
    hide RowFactored;
    var lu', rows' := SwapRows(lu, a, b), SwapRows(rows, a, b);
    forall i: nat | i < n ensures RowFactored(m, n, lu', rows'[i], i, Min(i, col)) {
      var o := if i == a then b else if i == b then a else i;
      RowFactoredFrame(m, n, lu, lu', rows[o], o, i, Min(i, col));
    }
  }

  lemma SwapPivots(lu: Matrix, n: nat, col: nat, sel: nat)
    requires IsSquare(lu, n) && col <= sel < n && PivotsNonzero(lu, col) && At(lu, sel, col) != ZERO
    ensures IsSquare(SwapRows(lu, sel, col), n) && PivotsNonzero(SwapRows(lu, sel, col), col)
    ensures At(SwapRows(lu, sel, col), col, col) != ZERO
  {
    var lu' := SwapRows(lu, sel, col);
    forall k: nat | k < col ensures At(lu', k, k) != ZERO {
      assert At(lu', k, k) == At(lu, k, k);
    }
  }

  lemma StartFactored(m: Matrix, n: nat, rows: seq<nat>)
    requires |rows| == n && forall i: nat | i < n :: rows[i] == i
    ensures Factored(m, n, m, rows, 0)
  {
    hide Add, Mul, At;
    forall i: nat | i < n ensures RowFactored(m, n, m, rows[i], i, 0) {
      forall j: nat | j < n
        ensures At(m, i, j) == Add(Eliminated(m, i, 0, j), Residual(m, i, 0, j))
      {
        AddZero(At(m, i, j));
      }
    }
  }

  /** Clears column `col` of row `row`, leaving the factor in its place. */
  method ClearEntry(field: GfField, lu: Matrix, n: nat, row: nat, col: nat, pivotInverse: Elem)
    returns (lu': Matrix, factor: Elem)
    requires field.Valid() && IsSquare(lu, n) && col < row < n
    ensures IsSquare(lu', n) && RowReduced(lu, lu', n, row, col, factor)
    ensures factor == Mul(At(lu, row, col), pivotInverse)
  {
    hide Add, Mul;
    factor := field.GfMul(lu[row][col], pivotInverse);
    lu' := lu[row := lu[row][col := factor]];
    if factor == ZERO {
      forall j: nat | col < j < n ensures At(lu', row, j) == Add(At(lu, row, j), Mul(factor, At(lu, col, j))) {
        ZeroMul(At(lu, col, j));
        AddZero(At(lu, row, j));
      }
      return;
    }
    var j := col + 1;
    while j < n
      invariant col < j <= n && IsSquare(lu', n)
      invariant lu' == lu[row := lu'[row]] && |lu'[row]| == n
      invariant forall k: nat | k < col || j <= k < n :: lu'[row][k] == lu[row][k]
      invariant lu'[row][col] == factor
      invariant forall k: nat | col < k < j :: lu'[row][k] == Add(lu[row][k], Mul(factor, lu[col][k]))
    {
      lu' := lu'[row := lu'[row][j := Add(lu'[row][j], field.GfMul(factor, lu'[col][j]))]];
      j := j + 1;
    }
  }

  /** One elimination round below the pivot of column `col`. */
  method ClearColumn(field: GfField, m: Matrix, n: nat, lu0: Matrix, rows: seq<nat>, col: nat) returns (lu: Matrix)
    requires field.Valid() && IsSquare(lu0, n) && col < n && |rows| == n
    requires Factored(m, n, lu0, rows, col) && PivotsNonzero(lu0, col) && At(lu0, col, col) != ZERO
    ensures IsSquare(lu, n) && Factored(m, n, lu, rows, col + 1) && PivotsNonzero(lu, col + 1)
  {
    hide Add, Mul, RowFactored, Inv;
    lu := lu0;
    var pivotInverse := field.GfInv(lu[col][col]);
    var row := col + 1;
    while row < n
      invariant col < row <= n && IsSquare(lu, n)
      invariant forall k: nat | k <= col :: lu[k] == lu0[k]
      invariant forall i: nat | i < n :: RowFactored(m, n, lu, rows[i], i, Min(i, if i < row then col + 1 else col))
    {
      var lu1 := lu;
      var factor;
      lu, factor := ClearEntry(field, lu1, n, row, col, pivotInverse);
      PivotTimesFactor(At(lu1, row, col), At(lu1, col, col), pivotInverse, factor);
      ReduceRow(m, n, lu1, lu, rows[row], row, col, factor);
      RowsKept(lu1, lu, n, row, col, factor);
      forall i: nat | i < n
        ensures RowFactored(m, n, lu, rows[i], i, Min(i, if i < row + 1 then col + 1 else col))
      {
        if i != row {
          RowFactoredFrame(m, n, lu1, lu, rows[i], i, i, Min(i, if i < row + 1 then col + 1 else col));
        }
      }
      row := row + 1;
    }
    PivotsKept(lu0, lu, n, col);
  }

  lemma PivotsKept(lu: Matrix, lu': Matrix, n: nat, col: nat)
    requires IsSquare(lu, n) && IsSquare(lu', n) && col < n
    requires PivotsNonzero(lu, col) && At(lu, col, col) != ZERO
    requires forall k: nat | k <= col :: lu'[k] == lu[k]
    ensures PivotsNonzero(lu', col + 1)
  {
    forall k: nat | k < col + 1 ensures At(lu', k, k) != ZERO {
      assert At(lu', k, k) == At(lu, k, k);
    }
  }

  lemma RowsKept(lu: Matrix, lu': Matrix, n: nat, row: nat, col: nat, f: Elem)
    requires IsSquare(lu, n) && IsSquare(lu', n) && RowReduced(lu, lu', n, row, col, f)
    ensures forall k: nat | k < n && k != row :: lu'[k] == lu[k]
  {
    forall k: nat | k < n && k != row ensures lu'[k] == lu[k] {
      assert forall j: nat | j < n :: At(lu', k, j) == lu'[k][j] && At(lu, k, j) == lu[k][j];
    }
  }

  lemma PivotTimesFactor(a: Elem, pivot: Elem, inverse: Elem, factor: Elem)
    requires pivot != ZERO && inverse == Inv(pivot) && factor == Mul(a, inverse)
    ensures Mul(factor, pivot) == a
  {
    hide *;
    MulAssoc(a, inverse, pivot);
    MulComm(inverse, pivot);
    InverseLaw(pivot);
    MulOne(a);
  }

  /** LU factorisation with row exchanges: fails exactly on singular input. */
  method Factorise(field: GfField, m: Matrix, n: nat) returns (ok: bool, lu: Matrix, rows: seq<nat>)
    requires field.Valid() && IsSquare(m, n)
    ensures ok <==> Nonsingular(m, n)
    ensures ok ==> IsSquare(lu, n) && Covers(rows, n) && Factored(m, n, lu, rows, n) && PivotsNonzero(lu, n)
  {
    hide RowFactored, Nonsingular;
    lu := m;
    rows := seq(n, i => i);
    StartFactored(m, n, rows);
    forall r: nat | r < n ensures r in rows {
      assert rows[r] == r;
    }
    var col := 0;
    while col < n
      invariant 0 <= col <= n && IsSquare(lu, n) && Covers(rows, n)
      invariant Factored(m, n, lu, rows, col) && PivotsNonzero(lu, col)
    {
      var sel := col;
      while sel < n && lu[sel][col] == ZERO
        invariant col <= sel <= n
        invariant forall i: nat | col <= i < sel :: At(lu, i, col) == ZERO
      {
        sel := sel + 1;
      }
      if sel == n {
        NoPivotSingular(m, n, lu, rows, col);
        ok := false;
        return;
      }
      if sel != col {
        SwapFactored(m, n, lu, rows, col, sel, col);
        SwapCovers(rows, n, sel, col);
        SwapPivots(lu, n, col, sel);
        lu := SwapRows(lu, sel, col);
        rows := SwapRows(rows, sel, col);
      }
      lu := ClearColumn(field, m, n, lu, rows, col);
      col := col + 1;
    }
    FactoredNonsingular(m, n, lu, rows);
    ok := true;
  }

  /** A vector held in a sequence. */
  ghost function VectorOf(s: seq<Elem>): Vector { (j: nat) => if j < |s| then s[j] else ZERO }

  lemma LowerPartStart(lu: Matrix, i: nat, y: Vector, u: Elem)
    ensures u == Add(u, LowerPart(lu, i, 0, y))
  {
    hide Add;
    AddZero(u);
  }

  /** One step of an accumulation loop. */
  lemma AccumulateStep(n: nat, f: Vector, u: Elem)
    ensures Add(Add(u, Sum(n, f)), f(n)) == Add(u, Sum(n + 1, f))
  {
    hide *;
    SumUnfold(n, f);
    AddAssoc(u, Sum(n, f), f(n));
  }

  lemma LowerPartStep(lu: Matrix, i: nat, j: nat, y: Vector, u: Elem)
    ensures Add(Add(u, LowerPart(lu, i, j, y)), Mul(At(lu, i, j), y(j))) == Add(u, LowerPart(lu, i, j + 1, y))
  {
    hide Add, Mul, At, Sum;
    AccumulateStep(j, (k: nat) => Mul(At(lu, i, k), y(k)), u);
  }

  lemma LowerDotEqual(lu: Matrix, i: nat, y: Vector, y': Vector)
    requires forall k: nat | k < i :: y(k) == y'(k)
    ensures LowerDot(lu, i, y) == LowerDot(lu, i, y')
  {
    hide Add, Mul, At, Sum;
    SumEqual(i, (k: nat) => Mul(At(lu, i, k), y(k)), (k: nat) => Mul(At(lu, i, k), y'(k)));
  }

  lemma ForwardExtend(lu: Matrix, rows: seq<nat>, c: nat, interim: seq<Elem>, acc: Elem)
    requires |interim| < |rows| && LowerSolved(lu, rows, c, VectorOf(interim), |interim|)
    requires acc == Add(Unit(rows[|interim|], c), LowerDot(lu, |interim|, VectorOf(interim)))
    ensures LowerSolved(lu, rows, c, VectorOf(interim + [acc]), |interim| + 1)
  {
    hide Add, LowerDot;
    var y, y' := VectorOf(interim), VectorOf(interim + [acc]);
    forall i: nat | i < |interim| + 1 ensures y'(i) == Add(Unit(rows[i], c), LowerDot(lu, i, y')) {
      LowerDotEqual(lu, i, y, y');
    }
  }

  /** Forward substitution: L y = P e_c. */
  method ForwardSubstitute(field: GfField, n: nat, lu: Matrix, rows: seq<nat>, c: nat) returns (interim: seq<Elem>)
    requires field.Valid() && IsSquare(lu, n) && |rows| == n
    ensures |interim| == n && LowerSolved(lu, rows, c, VectorOf(interim), n)
  {
    hide Add, Mul, LowerPart, Unit;
    interim := [];
    var row := 0;
    while row < n
      invariant 0 <= row <= n && |interim| == row
      invariant LowerSolved(lu, rows, c, VectorOf(interim), row)
    {
      var acc := Unit(rows[row], c);
      LowerPartStart(lu, row, VectorOf(interim), acc);
      var j := 0;
      while j < row
        invariant 0 <= j <= row
        invariant acc == Add(Unit(rows[row], c), LowerPart(lu, row, j, VectorOf(interim)))
      {
        LowerPartStep(lu, row, j, VectorOf(interim), Unit(rows[row], c));
        acc := Add(acc, field.GfMul(lu[row][j], interim[j]));
        j := j + 1;
      }
      ForwardExtend(lu, rows, c, interim, acc);
      interim := interim + [acc];
      row := row + 1;
    }
  }

  /** Column c of `w` from row `from` on. */
  ghost function ColumnTail(w: Matrix, c: nat, from: nat): Vector {
    (j: nat) => if j >= from then At(w, j, c) else ZERO
  }

  ghost function UpperPart(lu: Matrix, k: nat, j: nat, x: Vector): Elem {
    Sum(j, (i: nat) => Mul(Upper(lu, k, i), x(i)))
  }

  lemma UpperPartStart(lu: Matrix, k: nat, x: Vector, u: Elem)
    requires forall j: nat | j <= k :: x(j) == ZERO
    ensures u == Add(u, UpperPart(lu, k, k + 1, x))
  {
    hide Add, Mul, At, Sum;
    var f := (i: nat) => Mul(Upper(lu, k, i), x(i));
    forall i: nat | i < k + 1 ensures f(i) == ZERO {
      ZeroMul(Upper(lu, k, i));
    }
    SumZero(k + 1, f);
    AddZero(u);
  }

  lemma UpperPartStep(lu: Matrix, k: nat, j: nat, x: Vector, u: Elem)
    requires k < j
    ensures Add(Add(u, UpperPart(lu, k, j, x)), Mul(At(lu, k, j), x(j))) == Add(u, UpperPart(lu, k, j + 1, x))
  {
    hide Add, Mul, At, Sum;
    AccumulateStep(j, (i: nat) => Mul(Upper(lu, k, i), x(i)), u);
  }

  lemma BackExtend(lu: Matrix, n: nat, row: nat, x0: Vector, x: Vector, y: Vector)
    requires row < n && At(lu, row, row) != ZERO && x0(row) == ZERO
    requires UpperSolved(lu, n, row + 1, n, x0, y)
    requires forall j: nat | j != row :: x(j) == x0(j)
    requires x(row) == Mul(Add(y(row), UpperPart(lu, row, n, x0)), Inv(At(lu, row, row)))
    ensures UpperSolved(lu, n, row, n, x, y)
  {
    hide Add, Mul, At, Sum, Inv;
    SolveSlot(lu, n, row, x0, x, y(row));
    forall r: nat | row < r < n ensures UpperDot(lu, n, r, x) == y(r) {
      UpperDotBelow(lu, n, r, row, x0, x);
    }
  }

  /** Back substitution into column `c`: U x = y. The other columns stay as they were. */
  method BackSubstitute(field: GfField, n: nat, lu: Matrix, interim: seq<Elem>, c: nat, w0: Matrix) returns (w: Matrix)
    requires field.Valid() && IsSquare(lu, n) && IsSquare(w0, n) && c < n
    requires |interim| == n && PivotsNonzero(lu, n)
    ensures IsSquare(w, n) && UpperSolved(lu, n, 0, n, Column(w, c), VectorOf(interim))
    ensures forall i: nat, d: nat | i < n && d < n && d != c :: w[i][d] == w0[i][d]
  {
    hide Add, Mul, Inv, UpperPart, UpperDot;
    w := w0;
    ghost var y := VectorOf(interim);
    var row := n;
    while row > 0
      invariant 0 <= row <= n && IsSquare(w, n)
      invariant UpperSolved(lu, n, row, n, ColumnTail(w, c, row), y)
      invariant forall i: nat, d: nat | i < n && d < n && d != c :: w[i][d] == w0[i][d]
    {
      row := row - 1;
      ghost var x0 := ColumnTail(w, c, row + 1);
      var acc := interim[row];
      UpperPartStart(lu, row, x0, acc);
      var j := row + 1;
      while j < n
        invariant row < j <= n
        invariant acc == Add(y(row), UpperPart(lu, row, j, x0))
      {
        UpperPartStep(lu, row, j, x0, y(row));
        acc := Add(acc, field.GfMul(lu[row][j], w[j][c]));
        j := j + 1;
      }
      w := w[row := w[row][c := field.GfMul(acc, field.GfInv(lu[row][row]))]];
      BackExtend(lu, n, row, x0, ColumnTail(w, c, row), y);
    }
    UpperSolvedSame(lu, n, ColumnTail(w, c, 0), Column(w, c), y);
  }

  lemma UpperSolvedSame(lu: Matrix, n: nat, x: Vector, x': Vector, y: Vector)
    requires UpperSolved(lu, n, 0, n, x, y) && forall j: nat :: x(j) == x'(j)
    ensures UpperSolved(lu, n, 0, n, x', y)
  {
    hide Add, Mul, Upper, Sum;
    forall r: nat | r < n ensures UpperDot(lu, n, r, x') == y(r) {
      SumEqual(n, (j: nat) => Mul(Upper(lu, r, j), x(j)), (j: nat) => Mul(Upper(lu, r, j), x'(j)));
    }
  }

  /** invert_square: succeeds exactly on nonsingular input, and then the result is the two-sided inverse. */
  method InvertSquare(field: GfField, m: Matrix, n: nat) returns (ok: bool, inverse: Matrix)
    requires field.Valid() && IsSquare(m, n)
    ensures ok <==> Nonsingular(m, n)
    ensures ok ==> IsSquare(inverse, n) && IsRightInverse(m, inverse, n) && IsRightInverse(inverse, m, n)
    ensures !ok ==> inverse == m
  {
    hide Nonsingular, Factored, RowDot, UpperDot, LowerDot;
    var lu, rows;
    ok, lu, rows := Factorise(field, m, n);
    if !ok {
      inverse := m;
      return;
    }
    inverse := seq(n, i => seq(n, j => ZERO));
    var c := 0;
    while c < n
      invariant 0 <= c <= n && IsSquare(inverse, n)
      invariant forall d: nat, p: nat | d < c && p < n :: RowDot(m, n, p, Column(inverse, d)) == Unit(p, d)
    {
      var before := inverse;
      var interim := ForwardSubstitute(field, n, lu, rows, c);
      inverse := BackSubstitute(field, n, lu, interim, c, before);
      SolvedColumn(m, n, lu, rows, c, Column(inverse, c), VectorOf(interim));
      forall d: nat, p: nat | d < c && p < n ensures RowDot(m, n, p, Column(inverse, d)) == Unit(p, d) {
        RowDotSame(m, n, p, Column(before, d), Column(inverse, d));
      }
      c := c + 1;
    }
    RightInverseIsLeft(m, inverse, n);
  }

  lemma RowDotSame(m: Matrix, n: nat, p: nat, x: Vector, x': Vector)
    requires forall j: nat | j < n :: x(j) == x'(j)
    ensures RowDot(m, n, p, x) == RowDot(m, n, p, x')
  {
    hide Add, Mul, At, Sum;
    SumEqual(n, (j: nat) => Mul(At(m, p, j), x(j)), (j: nat) => Mul(At(m, p, j), x'(j)));
  }
}
