/** The Cauchy erasure code: parity units, and why any lost units can be solved for. */
module ErasureCode {
  import opened Gf16
  import opened Gf16Primitive
  import opened Gf16Field
  import opened Gf16Sums
  import opened Cauchy
  import opened SquareInverse

  /** The field element that stands for a slot number. */
  function Coord(slot: nat): Elem
    requires slot < 65536
  {
    FromIndex(slot)
  }

  lemma CoordInjective(a: nat, b: nat)
    requires a < 65536 && b < 65536 && a != b
    ensures Coord(a) != Coord(b)
  {
    hide FromIndex, Index;
    IndexFromIndex(a);
    IndexFromIndex(b);
  }

  /** The weight of data unit `d` in the parity unit kept in slot `s`. */
  ghost function Weight(s: nat, d: nat): Elem {
    if s < 65536 && d < 65536 then Recip(Coord(s), Coord(d)) else ZERO
  }

  /** The parity unit in slot `s` of the data units `data`. */
  ghost function ParityUnit(nd: nat, s: nat, data: Vector): Elem {
    Sum(nd, (d: nat) => Mul(Weight(s, d), data(d)))
  }

  // ----- slots

  /** The invalid slots among the first `n`, in ascending order. */
  function Missing(valid: seq<bool>, n: nat): seq<nat>
    requires n <= |valid|
  {
    if n == 0 then [] else if valid[n - 1] then Missing(valid, n - 1) else Missing(valid, n - 1) + [n - 1]
  }

  /** The valid slots in [from, n), in ascending order. */
  function Present(valid: seq<bool>, from: nat, n: nat): seq<nat>
    requires n <= |valid|
    decreases n
  {
    if n <= from then [] else if valid[n - 1] then Present(valid, from, n - 1) + [n - 1]
      else Present(valid, from, n - 1)
  }

  lemma {:induction false} MissingFacts(valid: seq<bool>, n: nat)
    requires n <= |valid|
    ensures |Missing(valid, n)| <= n
    ensures forall r: nat | r < |Missing(valid, n)| :: Missing(valid, n)[r] < n && !valid[Missing(valid, n)[r]]
    ensures forall q: nat, r: nat | q < r < |Missing(valid, n)| :: Missing(valid, n)[q] < Missing(valid, n)[r]
  {
    if n > 0 { MissingFacts(valid, n - 1); }
  }

  lemma {:induction false} PresentFacts(valid: seq<bool>, from: nat, n: nat)
    requires n <= |valid|
    ensures forall r: nat | r < |Present(valid, from, n)| ::
      from <= Present(valid, from, n)[r] < n && valid[Present(valid, from, n)[r]]
    ensures forall q: nat, r: nat | q < r < |Present(valid, from, n)| ::
      Present(valid, from, n)[q] < Present(valid, from, n)[r]
    decreases n
  {
    if n > from { PresentFacts(valid, from, n - 1); }
  }

  // ----- sums over valid and invalid slots

  function IfValid(valid: seq<bool>, d: nat, a: Elem): Elem { if d < |valid| && valid[d] then a else ZERO }

  function IfInvalid(valid: seq<bool>, d: nat, a: Elem): Elem { if d < |valid| && !valid[d] then a else ZERO }

  ghost function Pick(s: seq<nat>, f: Vector): Vector { (r: nat) => if r < |s| then f(s[r]) else ZERO }

  /** A sum over the slots is the sum over the valid ones plus the sum over the enumerated missing ones. */
  lemma SumSplit(valid: seq<bool>, n: nat, f: Vector, h: Vector)
    requires n <= |valid|
    requires forall d: nat | d < n :: h(d) == IfValid(valid, d, f(d))
    ensures Sum(n, f) == Add(Sum(n, h), Sum(|Missing(valid, n)|, Pick(Missing(valid, n), f)))
  {
    hide Add, Sum, Missing;
    var e := (d: nat) => IfInvalid(valid, d, f(d));
    forall d: nat | d < n ensures f(d) == Add(h(d), e(d)) {
      AddZero(f(d));
    }
    SumAdd(n, h, e, f);
    SumMissing(valid, n, f, e);
  }

  lemma {:induction false} SumMissing(valid: seq<bool>, n: nat, f: Vector, e: Vector)
    requires n <= |valid|
    requires forall d: nat | d < n :: e(d) == IfInvalid(valid, d, f(d))
    ensures Sum(n, e) == Sum(|Missing(valid, n)|, Pick(Missing(valid, n), f))
  {
    hide Add;
    if n > 0 {
      SumMissing(valid, n - 1, f, e);
      var s, t := Missing(valid, n - 1), Missing(valid, n);
      AddZero(Sum(n - 1, e));
      if !valid[n - 1] {
        assert t == s + [n - 1];
        SumEqual(|s|, Pick(s, f), Pick(t, f));
        SumUnfold(|s|, Pick(t, f));
      }
    }
  }

  // ----- recovering one unit

  /** Slots that hold their own data when valid, and the substitute parity unit when not. */
  ghost predicate WorkingSlots(nd: nat, valid: seq<bool>, subs: seq<nat>, data: Vector, work: Vector)
    requires nd <= |valid|
  {
    && (forall d: nat | d < nd && valid[d] :: work(d) == data(d))
    && (forall r: nat | r < |subs| && r < |Missing(valid, nd)| ::
          work(Missing(valid, nd)[r]) == ParityUnit(nd, subs[r], data))
  }

  /** The row of the recovery matrix that the solved row `solved` of the inverted system gives. */
  ghost predicate RecoveryRow(nd: nat, valid: seq<bool>, subs: seq<nat>, solved: Vector, row: Vector)
    requires nd <= |valid|
  {
    && (forall d: nat | d < nd && valid[d] :: row(d) == Sum(|subs|, (i: nat) => Mul(solved(i), SubWeight(subs, i, d))))
    && (forall r: nat | r < |subs| && r < |Missing(valid, nd)| :: row(Missing(valid, nd)[r]) == solved(r))
  }

  ghost function SubWeight(subs: seq<nat>, i: nat, d: nat): Elem { if i < |subs| then Weight(subs[i], d) else ZERO }

  /** `solved` is row k of a left inverse of the system over the missing units. */
  ghost predicate SolvedRow(erased: seq<nat>, subs: seq<nat>, k: nat, solved: Vector) {
    forall r: nat | r < |erased| :: Sum(|subs|, (i: nat) => Mul(solved(i), SubWeight(subs, i, erased[r]))) == Unit(k, r)
  }

  /** The share of the valid units in a parity unit. */
  ghost function ValidShare(nd: nat, valid: seq<bool>, s: nat, data: Vector): Elem {
    Sum(nd, (d: nat) => IfValid(valid, d, Mul(Weight(s, d), data(d))))
  }

  /** The share of the missing units in a parity unit. */
  ghost function MissingShare(erased: seq<nat>, s: nat, data: Vector): Elem {
    Sum(|erased|, Pick(erased, (d: nat) => Mul(Weight(s, d), data(d))))
  }

  lemma ParitySplit(nd: nat, valid: seq<bool>, s: nat, data: Vector)
    requires nd <= |valid|
    ensures ParityUnit(nd, s, data) == Add(ValidShare(nd, valid, s, data), MissingShare(Missing(valid, nd), s, data))
  {
    hide Add, Mul, Sum, Missing, Weight;
    SumSplit(valid, nd, (d: nat) => Mul(Weight(s, d), data(d)),
             (d: nat) => IfValid(valid, d, Mul(Weight(s, d), data(d))));
  }

  /** Weighting the valid shares with the solved row gives what the recovery row takes from the valid units. */
  lemma ValidShares(nd: nat, valid: seq<bool>, subs: seq<nat>, solved: Vector, row: Vector, data: Vector, rows: Vector)
    requires nd <= |valid| && RecoveryRow(nd, valid, subs, solved, row)
    requires forall r: nat | r < |subs| :: rows(r) == Mul(solved(r), ValidShare(nd, valid, subs[r], data))
    ensures Sum(|subs|, rows) == Sum(nd, (d: nat) => IfValid(valid, d, Mul(row(d), data(d))))
  {
    hide Add, Mul, Sum, Missing, Weight;
    var g := (r: nat, d: nat) => IfValid(valid, d, Mul(SubWeight(subs, r, d), data(d)));
    var cols := (d: nat) => Sum(|subs|, (r: nat) => Mul(solved(r), g(r, d)));
    forall r: nat | r < |subs| ensures rows(r) == Mul(solved(r), Sum(nd, (d: nat) => g(r, d))) {
      var a := (d: nat) => IfValid(valid, d, Mul(Weight(subs[r], d), data(d)));
      var b := (d: nat) => g(r, d);
      forall d: nat | d < nd ensures a(d) == b(d) {
        assert SubWeight(subs, r, d) == Weight(subs[r], d);
      }
      SumEqual(nd, a, b);
    }
    SumScaleSwap(|subs|, nd, solved, g, rows, cols);
    var want := (d: nat) => IfValid(valid, d, Mul(row(d), data(d)));
    forall d: nat | d < nd ensures cols(d) == want(d) {
      ValidColumn(nd, valid, subs, solved, row, data, d, (r: nat) => Mul(solved(r), g(r, d)));
    }
    SumEqual(nd, cols, want);
  }

  lemma ValidColumn(nd: nat, valid: seq<bool>, subs: seq<nat>, solved: Vector, row: Vector, data: Vector, d: nat,
      t: Vector)
    requires d < nd <= |valid| && RecoveryRow(nd, valid, subs, solved, row)
    requires forall r: nat | r < |subs| ::
      t(r) == Mul(solved(r), IfValid(valid, d, Mul(SubWeight(subs, r, d), data(d))))
    ensures Sum(|subs|, t) == IfValid(valid, d, Mul(row(d), data(d)))
  {
    hide Add, Mul, Sum, Missing, SubWeight;
    if valid[d] {
      var f := (i: nat) => Mul(solved(i), SubWeight(subs, i, d));
      forall r: nat | r < |subs| ensures t(r) == Mul(data(d), f(r)) {
        MulAssoc(solved(r), SubWeight(subs, r, d), data(d));
        MulComm(f(r), data(d));
      }
      SumScale(|subs|, data(d), f, t);
      MulComm(data(d), Sum(|subs|, f));
    } else {
      forall r: nat | r < |subs| ensures t(r) == ZERO {
        ZeroMul(solved(r));
      }
      SumZero(|subs|, t);
    }
  }

  /** Weighting the missing shares with solved row k isolates the k-th missing unit. */
  lemma MissingShares(erased: seq<nat>, subs: seq<nat>, k: nat, solved: Vector, data: Vector, rows: Vector)
    requires k < |erased| == |subs| && SolvedRow(erased, subs, k, solved)
    requires forall r: nat | r < |subs| :: rows(r) == Mul(solved(r), MissingShare(erased, subs[r], data))
    ensures Sum(|subs|, rows) == data(erased[k])
  {
    hide Add, Mul, Sum, Weight, MissingShare, SubWeight, SolvedRow, Unit;
    var ne := |erased|;
    var value := Pick(erased, data);
    var g := (r: nat, q: nat) => if q < ne then Mul(SubWeight(subs, r, erased[q]), data(erased[q])) else ZERO;
    var cols := (q: nat) => Sum(ne, (r: nat) => Mul(solved(r), g(r, q)));
    forall r: nat | r < ne ensures rows(r) == Mul(solved(r), Sum(ne, (q: nat) => g(r, q))) {
      MissingRow(erased, subs, r, data, (q: nat) => g(r, q));
    }
    SumScaleSwap(ne, ne, solved, g, rows, cols);
    var want := (q: nat) => Mul(value(q), Unit(q, k));
    forall q: nat | q < ne ensures cols(q) == want(q) {
      MissingColumn(erased, subs, k, solved, data, q, (r: nat) => Mul(solved(r), g(r, q)));
    }
    SumEqual(ne, cols, want);
    UnitDot(ne, value, k, want);
  }

  lemma MissingRow(erased: seq<nat>, subs: seq<nat>, r: nat, data: Vector, t: Vector)
    requires r < |subs|
    requires forall q: nat | q < |erased| :: t(q) == Mul(SubWeight(subs, r, erased[q]), data(erased[q]))
    ensures MissingShare(erased, subs[r], data) == Sum(|erased|, t)
  {
    hide Add, Mul, Sum, Weight;
    var a := Pick(erased, (d: nat) => Mul(Weight(subs[r], d), data(d)));
    forall q: nat | q < |erased| ensures a(q) == t(q) {
      assert SubWeight(subs, r, erased[q]) == Weight(subs[r], erased[q]);
    }
    SumEqual(|erased|, a, t);
  }

  /** The share of missing unit q over all substitutes: the whole unit for q == k, nothing otherwise. */
  lemma MissingColumn(erased: seq<nat>, subs: seq<nat>, k: nat, solved: Vector, data: Vector, q: nat, t: Vector)
    requires k < |erased| == |subs| && q < |erased| && SolvedRow(erased, subs, k, solved)
    requires forall r: nat | r < |subs| :: t(r) == Mul(solved(r), Mul(SubWeight(subs, r, erased[q]), data(erased[q])))
    ensures Sum(|subs|, t) == Mul(data(erased[q]), Unit(q, k))
  {
    hide Add, Mul, Sum, SubWeight;
    var f := (i: nat) => Mul(solved(i), SubWeight(subs, i, erased[q]));
    var v := data(erased[q]);
    forall r: nat | r < |subs| ensures t(r) == Mul(v, f(r)) {
      MulAssoc(solved(r), SubWeight(subs, r, erased[q]), v);
      MulComm(f(r), v);
    }
    SumScale(|subs|, v, f, t);
  }

  /** A recovery row applied to the working slots gives back the missing unit. */
  lemma RecoverUnit(nd: nat, valid: seq<bool>, subs: seq<nat>, k: nat, solved: Vector, row: Vector, data: Vector,
      work: Vector)
    requires nd <= |valid| && k < |Missing(valid, nd)| == |subs|
    requires SolvedRow(Missing(valid, nd), subs, k, solved) && RecoveryRow(nd, valid, subs, solved, row)
    requires WorkingSlots(nd, valid, subs, data, work)
    ensures Sum(nd, (d: nat) => Mul(row(d), work(d))) == data(Missing(valid, nd)[k])
  {
    hide Add, Mul, Sum, Missing, ParityUnit, ValidShare, MissingShare, SolvedRow, SubWeight;
    var erased := Missing(valid, nd);
    var f := (d: nat) => Mul(row(d), work(d));
    var h := (d: nat) => IfValid(valid, d, Mul(row(d), data(d)));
    forall d: nat | d < nd ensures h(d) == IfValid(valid, d, f(d)) {
      assert f(d) == Mul(row(d), work(d)) && h(d) == IfValid(valid, d, Mul(row(d), data(d)));
      if valid[d] { assert work(d) == data(d); }
    }
    SumSplit(valid, nd, f, h);
    var ne := |subs|;
    var p := Pick(erased, f);
    var hs := (r: nat) => if r < ne then Mul(solved(r), ValidShare(nd, valid, subs[r], data)) else ZERO;
    var es := (r: nat) => if r < ne then Mul(solved(r), MissingShare(erased, subs[r], data)) else ZERO;
    forall r: nat | r < ne ensures p(r) == Add(hs(r), es(r)) {
      ParitySplit(nd, valid, subs[r], data);
      MulAdd(solved(r), ValidShare(nd, valid, subs[r], data), MissingShare(erased, subs[r], data));
    }
    SumAdd(ne, hs, es, p);
    ValidShares(nd, valid, subs, solved, row, data, hs);
    MissingShares(erased, subs, k, solved, data, es);
    var v, x := Sum(nd, h), data(erased[k]);
    AddAssoc(v, v, x);
    AddSelf(v);
    AddZero(x);
  }

  // ----- the system over the missing units is always solvable

  /** Row i: the weights of the missing units in substitute i. */
  ghost predicate IsSystem(m: Matrix, erased: seq<nat>, subs: seq<nat>) {
    && |erased| == |subs| && IsSquare(m, |subs|)
    && forall i: nat, r: nat | i < |subs| && r < |subs| :: m[i][r] == Weight(subs[i], erased[r])
  }

  ghost function RowOf(m: Matrix, k: nat): Vector { (j: nat) => At(m, k, j) }

  ghost predicate Ascending(s: seq<nat>, lo: nat, hi: nat) {
    && (forall i: nat | i < |s| :: lo <= s[i] < hi)
    && (forall i: nat, j: nat | i < j < |s| :: s[i] < s[j])
  }

  ghost function Coords(s: seq<nat>): Vector { (i: nat) => if i < |s| && s[i] < 65536 then Coord(s[i]) else ZERO }

  lemma SystemNonsingular(m: Matrix, erased: seq<nat>, subs: seq<nat>, nd: nat)
    requires IsSystem(m, erased, subs)
    requires nd <= 65536 && Ascending(erased, 0, nd) && Ascending(subs, nd, 65536)
    ensures Nonsingular(m, |subs|)
  {
    hide Add, Mul, Sum, Recip, Coord;
    var n := |subs|;
    var x, y := Coords(subs), Coords(erased);
    forall i: nat, j: nat | i < j < n ensures x(i) != x(j) { CoordInjective(subs[i], subs[j]); }
    forall i: nat, j: nat | i < j < n ensures y(i) != y(j) { CoordInjective(erased[i], erased[j]); }
    forall i: nat, j: nat | i < n && j < n ensures x(i) != y(j) { CoordInjective(subs[i], erased[j]); }
    forall v: Vector | InKernel(m, n, v) ensures IsZero(v, n) {
      forall i: nat | i < n ensures CauchyRow(n, x(i), y, v) == ZERO {
        assert RowDot(m, n, i, v) == ZERO;
        SystemRow(m, erased, subs, i, v, x, y);
      }
      CauchyNonsingular(n, x, y, v);
    }
  }

  lemma SystemRow(m: Matrix, erased: seq<nat>, subs: seq<nat>, i: nat, v: Vector, x: Vector, y: Vector)
    requires IsSystem(m, erased, subs) && i < |subs| && x == Coords(subs) && y == Coords(erased)
    requires forall j: nat | j < |subs| :: subs[j] < 65536 && erased[j] < 65536
    ensures RowDot(m, |subs|, i, v) == CauchyRow(|subs|, x(i), y, v)
  {
    hide Add, Mul, Sum, Recip, Coord;
    var f := (j: nat) => Mul(At(m, i, j), v(j));
    var g := (j: nat) => Mul(v(j), Recip(x(i), y(j)));
    forall j: nat | j < |subs| ensures f(j) == g(j) {
      assert m[i][j] == Weight(subs[i], erased[j]);
      MulComm(At(m, i, j), v(j));
    }
    SumEqual(|subs|, f, g);
  }

  lemma InverseGivesSolvedRow(m: Matrix, w: Matrix, erased: seq<nat>, subs: seq<nat>, k: nat)
    requires IsSystem(m, erased, subs) && IsRightInverse(w, m, |subs|) && k < |subs|
    ensures SolvedRow(erased, subs, k, RowOf(w, k))
  {
    hide Add, Mul, Sum, Weight;
    var solved := RowOf(w, k);
    forall r: nat | r < |erased|
      ensures Sum(|subs|, (i: nat) => Mul(solved(i), SubWeight(subs, i, erased[r]))) == Unit(k, r)
    {
      var f := (i: nat) => Mul(At(w, k, i), Column(m, r)(i));
      var g := (i: nat) => Mul(solved(i), SubWeight(subs, i, erased[r]));
      forall i: nat | i < |subs| ensures f(i) == g(i) {
        assert m[i][r] == Weight(subs[i], erased[r]);
        assert Column(m, r)(i) == m[i][r];
        assert SubWeight(subs, i, erased[r]) == Weight(subs[i], erased[r]);
      }
      SumEqual(|subs|, f, g);
      assert RowDot(w, |subs|, k, Column(m, r)) == Unit(k, r);
    }
  }

  /** Every vector of working slots is mapped to the missing units, in ascending slot order. */
  ghost predicate Recovers(mx: Matrix, nd: nat, valid: seq<bool>, subs: seq<nat>)
    requires nd <= |valid|
  {
    forall data: Vector, work: Vector, k: nat |
      k < |Missing(valid, nd)| && WorkingSlots(nd, valid, subs, data, work) ::
      RowDot(mx, nd, k, work) == data(Missing(valid, nd)[k])
  }

  /** Rows built from a left inverse of the system recover every missing unit. */
  lemma RowsRecover(mx: Matrix, nd: nat, valid: seq<bool>, subs: seq<nat>, m: Matrix, w: Matrix)
    requires nd <= |valid| && |Missing(valid, nd)| == |subs|
    requires IsSystem(m, Missing(valid, nd), subs) && IsRightInverse(w, m, |subs|)
    requires forall k: nat | k < |subs| ::
      RecoveryRow(nd, valid, subs, RowOf(w, k), RowOf(mx, k))
    ensures Recovers(mx, nd, valid, subs)
  {
    hide Add, Mul, Sum, At, Missing, RecoveryRow, SolvedRow, WorkingSlots, IsSystem, IsRightInverse;
    forall data: Vector, work: Vector, k: nat |
      k < |Missing(valid, nd)| && WorkingSlots(nd, valid, subs, data, work)
      ensures RowDot(mx, nd, k, work) == data(Missing(valid, nd)[k])
    {
      var row := RowOf(mx, k);
      InverseGivesSolvedRow(m, w, Missing(valid, nd), subs, k);
      RecoverUnit(nd, valid, subs, k, RowOf(w, k), row, data, work);
      SumEqual(nd, (d: nat) => Mul(row(d), work(d)), (d: nat) => Mul(At(mx, k, d), work(d)));
    }
  }

  // ----- every coefficient of a recovery row counts

  lemma RecipComm(x: Elem, y: Elem)
    ensures Recip(x, y) == Recip(y, x)
  {
    hide Add, Inv;
    AddComm(x, y);
  }

  lemma TransposedRow(subs: seq<nat>, solved: Vector, ys: seq<nat>, i: nat)
    requires |ys| == |subs| && i < |ys| && ys[i] < 65536
    requires forall j: nat | j < |subs| :: subs[j] < 65536
    ensures CauchyRow(|subs|, Coords(ys)(i), Coords(subs), solved)
      == Sum(|subs|, (j: nat) => Mul(solved(j), SubWeight(subs, j, ys[i])))
  {
    hide Add, Mul, Sum, Coord, Recip;
    var x, y := Coords(ys), Coords(subs);
    var f := (j: nat) => Mul(solved(j), Recip(x(i), y(j)));
    var g := (j: nat) => Mul(solved(j), SubWeight(subs, j, ys[i]));
    forall j: nat | j < |subs| ensures f(j) == g(j) {
      RecipComm(Coord(ys[i]), Coord(subs[j]));
      assert SubWeight(subs, j, ys[i]) == Recip(Coord(subs[j]), Coord(ys[i]));
    }
    SumEqual(|subs|, f, g);
  }

  /** What a recovery row takes from a valid unit is never nothing: each valid unit matters to each missing one. */
  lemma CoefficientNonzero(nd: nat, valid: seq<bool>, subs: seq<nat>, k: nat, solved: Vector, row: Vector, d: nat)
    requires nd <= |valid| && nd <= 65536 && d < nd && valid[d] && k < |Missing(valid, nd)| == |subs|
    requires Ascending(subs, nd, 65536)
    requires SolvedRow(Missing(valid, nd), subs, k, solved) && RecoveryRow(nd, valid, subs, solved, row)
    ensures row(d) != ZERO
  {
    hide Add, Mul, Sum, Missing, Coord, SubWeight, CauchyRow;
    assert Unit(k, k) == ONE;
    if row(d) == ZERO {
      var erased, n := Missing(valid, nd), |subs|;
      var ys := erased[k := d];
      MissingFacts(valid, nd);
      var x, y := Coords(ys), Coords(subs);
      forall i: nat, j: nat | i < j < n ensures x(i) != x(j) {
        assert ys[i] != ys[j];
        CoordInjective(ys[i], ys[j]);
      }
      forall i: nat, j: nat | i < j < n ensures y(i) != y(j) { CoordInjective(subs[i], subs[j]); }
      forall i: nat, j: nat | i < n && j < n ensures x(i) != y(j) { CoordInjective(ys[i], subs[j]); }
      forall i: nat | i < n ensures CauchyRow(n, x(i), y, solved) == ZERO {
        TransposedRow(subs, solved, ys, i);
        if i != k { assert ys[i] == erased[i]; }
      }
      CauchyNonsingular(n, x, y, solved);
      var f := (j: nat) => Mul(solved(j), SubWeight(subs, j, erased[k]));
      forall j: nat | j < n ensures f(j) == ZERO { ZeroMul(SubWeight(subs, j, erased[k])); }
      SumZero(n, f);
      assert false;
    }
  }

  lemma {:induction false} PresentPrefix(valid: seq<bool>, from: nat, a: nat, b: nat)
    requires a <= b <= |valid|
    ensures Present(valid, from, a) <= Present(valid, from, b)
    decreases b
  {
    if a < b { PresentPrefix(valid, from, a, b - 1); }
  }

  /** The parity slots that stand in for the missing units: the first valid ones. */
  function Substitutes(valid: seq<bool>, nd: nat): seq<nat>
    requires nd <= |valid|
  {
    var present := Present(valid, nd, |valid|);
    if |Missing(valid, nd)| <= |present| then present[..|Missing(valid, nd)|] else present
  }

  // ----- parity determines the missing units

  /** The difference of two data vectors on the missing slots. */
  ghost function Difference(erased: seq<nat>, a: Vector, b: Vector): Vector {
    (r: nat) => if r < |erased| then Add(a(erased[r]), b(erased[r])) else ZERO
  }

  /** Equal parity and equal valid units make the difference of the missing units a kernel vector of the system. */
  lemma DifferenceInKernel(nd: nat, valid: seq<bool>, s: nat, a: Vector, b: Vector, m: Matrix, i: nat)
    requires nd <= |valid| && forall d: nat | d < nd && valid[d] :: a(d) == b(d)
    requires ParityUnit(nd, s, a) == ParityUnit(nd, s, b)
    requires forall r: nat | r < |Missing(valid, nd)| :: At(m, i, r) == Weight(s, Missing(valid, nd)[r])
    ensures RowDot(m, |Missing(valid, nd)|, i, Difference(Missing(valid, nd), a, b)) == ZERO
  {
    hide Add, Mul, Sum, Missing, Weight, At;
    var erased := Missing(valid, nd);
    var fa := (d: nat) => Mul(Weight(s, d), a(d));
    var fb := (d: nat) => Mul(Weight(s, d), b(d));
    var h := (d: nat) => IfValid(valid, d, fa(d));
    SumSplit(valid, nd, fa, h);
    SumSplit(valid, nd, fb, h);
    var v := Sum(nd, h);
    var ea, eb := Sum(|erased|, Pick(erased, fa)), Sum(|erased|, Pick(erased, fb));
    assert ea == eb by {
      AddAssoc(v, v, ea);
      AddAssoc(v, v, eb);
      AddSelf(v);
      AddZero(ea);
      AddZero(eb);
    }
    var diff := Difference(erased, a, b);
    var g := (r: nat) => Mul(At(m, i, r), diff(r));
    forall r: nat | r < |erased| ensures g(r) == Add(Pick(erased, fa)(r), Pick(erased, fb)(r)) {
      MulAdd(Weight(s, erased[r]), a(erased[r]), b(erased[r]));
    }
    SumAdd(|erased|, Pick(erased, fa), Pick(erased, fb), g);
    AddSelf(ea);
  }

  /** Two data vectors that differ in at most k units and agree on k parity units are equal. */
  lemma ParityDetermines(nd: nat, valid: seq<bool>, subs: seq<nat>, a: Vector, b: Vector)
    requires nd <= |valid| && nd <= 65536
    requires Ascending(subs, nd, 65536) && |subs| == |Missing(valid, nd)|
    requires forall d: nat | d < nd && valid[d] :: a(d) == b(d)
    requires forall i: nat | i < |subs| :: ParityUnit(nd, subs[i], a) == ParityUnit(nd, subs[i], b)
    ensures forall d: nat | d < nd :: a(d) == b(d)
  {
    hide Add, Mul, Sum, Weight, ParityUnit, RowDot;
    var erased := Missing(valid, nd);
    var n := |subs|;
    MissingFacts(valid, nd);
    var m := SystemOf(erased, subs);
    SystemNonsingular(m, erased, subs, nd);
    var diff := Difference(erased, a, b);
    forall i: nat | i < n ensures RowDot(m, n, i, diff) == ZERO {
      DifferenceInKernel(nd, valid, subs[i], a, b, m, i);
    }
    assert InKernel(m, n, diff);
    forall d: nat | d < nd ensures a(d) == b(d) {
      if !valid[d] {
        var r := MissingIndex(valid, nd, d);
        assert diff(r) == ZERO;
        AddEqualsZero(a(d), b(d));
      }
    }
  }

  ghost function SystemOf(erased: seq<nat>, subs: seq<nat>): (m: Matrix)
    requires |erased| == |subs|
    ensures IsSystem(m, erased, subs)
  {
    seq(|subs|, (i: nat) requires i < |subs| =>
      seq(|subs|, (r: nat) requires r < |subs| && i < |subs| => Weight(subs[i], erased[r])))
  }

  lemma {:induction false} MissingIndex(valid: seq<bool>, n: nat, d: nat) returns (r: nat)
    requires d < n <= |valid| && !valid[d]
    ensures r < |Missing(valid, n)| && Missing(valid, n)[r] == d
  {
    if d == n - 1 {
      r := |Missing(valid, n - 1)|;
    } else {
      r := MissingIndex(valid, n - 1, d);
    }
  }
}
