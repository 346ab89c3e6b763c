/** ReedSolomon16 of src/recovery/rs16.cpp: coefficient matrices for encoding and for recovery. */
module ReedSolomon {
  import opened Gf16
  import opened Gf16Sums
  import opened GfTables
  import opened Cauchy
  import opened SquareInverse
  import opened ErasureCode
  import opened SlotWords
  import opened Options
  import opened PowersOfTwo

  const GF_SIZE: nat := 65535

  predicate Rectangular(m: Matrix, rows: nat, cols: nat) {
    |m| == rows && forall i: nat | i < rows :: |m[i]| == cols
  }

  /** The systematic Cauchy generator. */
  ghost predicate IsGenerator(m: Matrix, nd: nat, nr: nat) {
    && Rectangular(m, nr, nd)
    && forall i: nat, d: nat | i < nr && d < nd :: m[i][d] == Weight(nd + i, d)
  }

  /** One weight as the source computes it. */
  method SlotWeight(field: GfField, s: nat, d: nat) returns (w: Elem)
    requires field.Valid() && s < 65536 && d < 65536
    ensures w == Weight(s, d)
  {
    w := field.GfInv(Add(Coord(s), Coord(d)));
  }

  /** One weight per data unit: a row of the generator, or of the system when `slots` are the erased ones. */
  method WeightRow(field: GfField, s: nat, slots: seq<nat>) returns (row: seq<Elem>)
    requires field.Valid() && s < 65536 && forall r: nat | r < |slots| :: slots[r] < 65536
    ensures |row| == |slots| && forall r: nat | r < |slots| :: row[r] == Weight(s, slots[r])
  {
    hide Weight;
    row := [];
    var r := 0;
    while r < |slots|
      invariant 0 <= r <= |slots| && |row| == r
      invariant forall q: nat | q < r :: row[q] == Weight(s, slots[q])
    {
      var w := SlotWeight(field, s, slots[r]);
      row := row + [w];
      r := r + 1;
    }
  }

  /** What the substitutes take from valid unit d, weighted with the solved row. */
  method KnownCoefficient(field: GfField, subs: seq<nat>, solved: seq<Elem>, d: nat) returns (acc: Elem)
    requires field.Valid() && d < 65536 && |subs| == |solved| && forall i: nat | i < |subs| :: subs[i] < 65536
    ensures acc == KnownWeight(subs, VectorOf(solved), d, |subs|)
  {
    hide Add, Mul, Weight, KnownWeight;
    acc := ZERO;
    var i := 0;
    KnownWeightStart(subs, VectorOf(solved), d);
    while i < |subs|
      invariant 0 <= i <= |subs| && acc == KnownWeight(subs, VectorOf(solved), d, i)
    {
      var w := SlotWeight(field, subs[i], d);
      KnownWeightStep(subs, VectorOf(solved), d, i);
      acc := Add(acc, field.GfMul(solved[i], w));
      i := i + 1;
    }
  }

  /** The recovery row of one missing unit. */
  method BuildRecoveryRow(field: GfField, nd: nat, valid: seq<bool>, subs: seq<nat>, erased: seq<nat>,
                          solved: seq<Elem>)
    returns (row: seq<Elem>)
    requires field.Valid() && nd <= |valid| && nd <= 65536
    requires erased == Missing(valid, nd) && |erased| == |subs| == |solved|
    requires forall i: nat | i < |subs| :: subs[i] < 65536
    ensures |row| == nd && RecoveryRow(nd, valid, subs, VectorOf(solved), VectorOf(row))
  {
    hide KnownWeight, Missing, RecoveryRow, VectorOf;
    MissingFacts(valid, nd);
    row := seq(nd, _ => ZERO);
    var d := 0;
    while d < nd
      invariant 0 <= d <= nd && |row| == nd
      invariant forall c: nat | c < d && valid[c] :: row[c] == KnownWeight(subs, VectorOf(solved), c, |subs|)
    {
      if valid[d] {
        var acc := KnownCoefficient(field, subs, solved, d);
        row := row[d := acc];
      }
      d := d + 1;
    }
    var r := 0;
    while r < |subs|
      invariant 0 <= r <= |subs| && |row| == nd
      invariant forall c: nat | c < nd && valid[c] :: row[c] == KnownWeight(subs, VectorOf(solved), c, |subs|)
      invariant forall q: nat | q < r :: row[erased[q]] == solved[q]
    {
      row := row[erased[r] := solved[r]];
      r := r + 1;
    }
    RowIsRecovery(nd, valid, subs, solved, row);
  }

  lemma RowIsRecovery(nd: nat, valid: seq<bool>, subs: seq<nat>, solved: seq<Elem>, row: seq<Elem>)
    requires nd <= |valid| && |row| == nd && |Missing(valid, nd)| == |subs| == |solved|
    requires forall c: nat | c < nd && valid[c] :: row[c] == KnownWeight(subs, VectorOf(solved), c, |subs|)
    requires forall q: nat | q < |subs| :: Missing(valid, nd)[q] < nd && row[Missing(valid, nd)[q]] == solved[q]
    ensures RecoveryRow(nd, valid, subs, VectorOf(solved), VectorOf(row))
  {
    hide Mul, Sum, Weight, Missing, SubWeight;
  }

  ghost function KnownWeight(subs: seq<nat>, solved: Vector, d: nat, n: nat): Elem {
    Sum(n, (i: nat) => Mul(solved(i), SubWeight(subs, i, d)))
  }

  lemma KnownWeightStart(subs: seq<nat>, solved: Vector, d: nat)
    ensures KnownWeight(subs, solved, d, 0) == ZERO
  {
  }

  lemma KnownWeightStep(subs: seq<nat>, solved: Vector, d: nat, i: nat)
    requires i < |subs|
    ensures KnownWeight(subs, solved, d, i + 1) ==
        Add(KnownWeight(subs, solved, d, i), Mul(solved(i), Weight(subs[i], d)))
  {
    hide Add, Mul, Sum, Weight;
    SumUnfold(i, (i: nat) => Mul(solved(i), SubWeight(subs, i, d)));
  }

  /** The parity slots used: the first `ne` valid ones. */
  method CollectSubstitutes(valid: seq<bool>, nd: nat, ne: nat) returns (subs: seq<nat>)
    requires nd <= |valid| && ne == |Missing(valid, nd)| <= |Present(valid, nd, |valid|)|
    ensures subs == Substitutes(valid, nd) && |subs| == ne
  {
    subs := [];
    var slot := nd;
    while slot < |valid| && |subs| < ne
      invariant nd <= slot <= |valid| && |subs| <= ne
      invariant subs == Present(valid, nd, slot)
    {
      if valid[slot] { subs := subs + [slot]; }
      slot := slot + 1;
    }
    PresentPrefix(valid, nd, slot, |valid|);
  }

  method CollectErased(valid: seq<bool>, nd: nat, ne: nat) returns (erased: seq<nat>)
    requires nd <= |valid| && ne == |Missing(valid, nd)|
    ensures erased == Missing(valid, nd)
  {
    erased := [];
    var slot := 0;
    while slot < nd && |erased| < ne
      invariant 0 <= slot <= nd && erased == Missing(valid, slot)
    {
      MissingMonotone(valid, slot + 1, nd);
      if !valid[slot] { erased := erased + [slot]; }
      slot := slot + 1;
    }
    MissingMonotone(valid, slot, nd);
  }

  lemma {:induction false} MissingMonotone(valid: seq<bool>, a: nat, b: nat)
    requires a <= b <= |valid|
    ensures Missing(valid, a) <= Missing(valid, b)
  {
    if a < b { MissingMonotone(valid, a, b - 1); }
  }

  /** The matrix that maps working slots to missing units; the system it inverts is never singular. */
  method DeriveRecoveryCoefficients(field: GfField, nd: nat, valid: seq<bool>) returns (mx: Matrix)
    requires field.Valid() && nd <= |valid| <= GF_SIZE
    requires |Missing(valid, nd)| <= |Present(valid, nd, |valid|)|
    ensures Rectangular(mx, |Missing(valid, nd)|, nd)
    ensures Recovers(mx, nd, valid, Substitutes(valid, nd)) && FullOnValid(mx, nd, valid)
  {
    hide Weight, RecoveryRow, IsRightInverse, Nonsingular, Recovers, FullOnValid;
    var ne := |Missing(valid, nd)|;
    var erased := CollectErased(valid, nd, ne);
    var subs := CollectSubstitutes(valid, nd, ne);
    MissingFacts(valid, nd);
    PresentFacts(valid, nd, |valid|);
    var system: Matrix := [];
    var i := 0;
    while i < ne
      invariant 0 <= i <= ne && Rectangular(system, i, ne)
      invariant forall q: nat, r: nat | q < i && r < ne :: system[q][r] == Weight(subs[q], erased[r])
    {
      var row := WeightRow(field, subs[i], erased);
      system := system + [row];
      i := i + 1;
    }
    SystemNonsingular(system, erased, subs, nd);
    var ok, inverse := InvertSquare(field, system, ne);
    mx := [];
    var k := 0;
    while k < ne
      invariant 0 <= k <= ne && Rectangular(mx, k, nd)
      invariant forall q: nat | q < k :: RecoveryRow(nd, valid, subs, VectorOf(inverse[q]), VectorOf(mx[q]))
    {
      var row := BuildRecoveryRow(field, nd, valid, subs, erased, inverse[k]);
      mx := mx + [row];
      k := k + 1;
    }
    forall q: nat | q < ne
      ensures RecoveryRow(nd, valid, subs, RowOf(inverse, q), RowOf(mx, q))
    {
      RecoveryRowSame(nd, valid, subs, VectorOf(inverse[q]), RowOf(inverse, q), VectorOf(mx[q]), RowOf(mx, q));
    }
    RowsRecover(mx, nd, valid, subs, system, inverse);
    RowsFull(mx, nd, valid, subs, system, inverse);
  }

  /** Every valid unit has a nonzero coefficient in the recovery of every missing one. */
  ghost predicate FullOnValid(mx: Matrix, nd: nat, valid: seq<bool>)
    requires nd <= |valid|
  {
    forall e: nat, d: nat | e < |Missing(valid, nd)| && d < nd && valid[d] :: At(mx, e, d) != ZERO
  }

  lemma RowsFull(mx: Matrix, nd: nat, valid: seq<bool>, subs: seq<nat>, m: Matrix, w: Matrix)
    requires nd <= |valid| && nd <= 65536 && |Missing(valid, nd)| == |subs| && Ascending(subs, nd, 65536)
    requires IsSystem(m, Missing(valid, nd), subs) && IsRightInverse(w, m, |subs|)
    requires forall k: nat | k < |subs| :: RecoveryRow(nd, valid, subs, RowOf(w, k), RowOf(mx, k))
    ensures FullOnValid(mx, nd, valid)
  {
    hide At, Missing, RecoveryRow, SolvedRow, IsSystem, IsRightInverse, Ascending;
    forall e: nat, d: nat | e < |Missing(valid, nd)| && d < nd && valid[d] ensures At(mx, e, d) != ZERO {
      InverseGivesSolvedRow(m, w, Missing(valid, nd), subs, e);
      CoefficientNonzero(nd, valid, subs, e, RowOf(w, e), RowOf(mx, e), d);
      assert RowOf(mx, e)(d) == At(mx, e, d);
    }
  }

  lemma RecoveryRowSame(nd: nat, valid: seq<bool>, subs: seq<nat>, s: Vector, s': Vector, row: Vector, row': Vector)
    requires nd <= |valid| && RecoveryRow(nd, valid, subs, s, row)
    requires (forall i: nat :: s(i) == s'(i)) && forall d: nat :: row(d) == row'(d)
    ensures RecoveryRow(nd, valid, subs, s', row')
  {
    hide Add, Mul, Sum, SubWeight, Missing;
    forall d: nat | d < nd && valid[d] ensures row'(d) == Sum(|subs|, (i: nat) => Mul(s'(i), SubWeight(subs, i, d))) {
      SumEqual(|subs|, (i: nat) => Mul(s(i), SubWeight(subs, i, d)), (i: nat) => Mul(s'(i), SubWeight(subs, i, d)));
    }
  }

  method CountMissing(valid: seq<bool>, nd: nat) returns (ne: nat)
    requires nd <= |valid|
    ensures ne == |Missing(valid, nd)|
  {
    ne := 0;
    var i := 0;
    while i < nd
      invariant 0 <= i <= nd && ne == |Missing(valid, i)|
    {
      if !valid[i] { ne := ne + 1; }
      i := i + 1;
    }
  }

  method CountPresent(valid: seq<bool>, nd: nat, end: nat) returns (count: nat)
    requires end <= |valid|
    ensures count == |Present(valid, nd, end)|
  {
    count := 0;
    var i := nd;
    while i < end
      invariant nd <= i && (i <= end || i == nd) && (i <= end ==> count == |Present(valid, nd, i)|) &&
        (i > end ==> count == 0)
    {
      if valid[i] { count := count + 1; }
      i := i + 1;
    }
  }

  predicate Representable(nd: nat, nr: nat) { 0 < nd && 0 < nr && nd + nr <= GF_SIZE }

  function Wrap32(n: nat): nat { n % TWO32 }

  /** The guard of init, which adds the two counts in 32 bits. */
  predicate Accepted(nd: nat, nr: nat) { 0 < nd && 0 < nr && Wrap32(nd + nr) <= GF_SIZE }

  /** The guard admits exactly the representable counts and those whose sum wraps to a small one. */
  lemma AcceptedExactly(nd: nat, nr: nat)
    requires nd < TWO32 && nr < TWO32
    ensures Representable(nd, nr) <==> 0 < nd && 0 < nr && nd + nr <= 65535
    ensures Representable(nd, nr) <==> Accepted(nd, nr) && nd + nr < TWO32
  {
  }

  /** Damage that the valid parity units can make up for. */
  predicate Recoverable(valid: seq<bool>, nd: nat)
    requires nd <= |valid|
  {
    0 < |Missing(valid, nd)| <= |Present(valid, nd, |valid|)|
  }

  /** When the 32-bit sum of the counts wraps, the parity loop counts nothing. */
  lemma WrappedIsShort(nd: nat, nr: nat, valid: seq<bool>)
    requires nd < TWO32 && nr < TWO32
    ensures nd + nr < TWO32 ==> Wrap32(nd + nr) == nd + nr
    ensures nd + nr >= TWO32 && |valid| == nd + nr ==>
      Wrap32(nd + nr) <= |valid| && Present(valid, nd, Wrap32(nd + nr)) == [] && !Representable(nd, nr)
  {
  }

  class ReedSolomon16 {
    const field: GfField
    var nd: nat
    var nr: nat
    var ne: nat
    var mx: Matrix

    constructor ()
      ensures field.Valid() && fresh(field) && fresh(field.power) && fresh(field.exponent)
      ensures mx == []
    {
      field := new GfField();
      nd, nr, ne, mx := 0, 0, 0, [];
    }

    /** Sets up the encoder (no flags) or the decoder (flags of all units). */
    method Init(dataCount: nat, recCount: nat, validFlags: Option<seq<bool>>) returns (ok: bool)
      requires field.Valid() && dataCount < TWO32 && recCount < TWO32
      requires validFlags.Some? ==> |validFlags.value| == dataCount + recCount
      modifies this
      ensures nd == dataCount && nr == recCount
      ensures validFlags.None? ==> (ok <==> Accepted(nd, nr)) && (ok ==> IsEncoder(mx, nd, nr))
      ensures validFlags.None? && ok && nd + nr < TWO32 ==> IsGenerator(mx, nd, nr)
      ensures validFlags.Some? ==> (ok <==> Representable(nd, nr) && Recoverable(validFlags.value, nd))
      ensures validFlags.Some? && ok ==>
        && ne == |Missing(validFlags.value, nd)|
        && Rectangular(mx, ne, nd)
        && Recovers(mx, nd, validFlags.value, Substitutes(validFlags.value, nd))
        && FullOnValid(mx, nd, validFlags.value)
      ensures !ok ==> mx == old(mx)
    {
      hide Recovers, Weight, ParityWeight, FullOnValid, IsGenerator, IsEncoder, Missing, Present, Substitutes;
      WrappedIsShort(dataCount, recCount, if validFlags.Some? then validFlags.value else []);
      nd, nr, ne := dataCount, recCount, 0;
      if nd == 0 || nr == 0 || Wrap32(nd + nr) > GF_SIZE { return false; }
      match validFlags {
        case Some(valid) =>
          ne := CountMissing(valid, nd);
          var validEcc := CountPresent(valid, nd, Wrap32(nd + nr));
          if ne > validEcc || ne == 0 || validEcc == 0 { return false; }
          mx := DeriveRecoveryCoefficients(field, nd, valid);
        case None =>
          mx := FillParityCoefficients(field, nd, nr);
          if nd + nr < TWO32 { EncoderIsGenerator(mx, nd, nr); }
      }
      ok := true;
    }
  }

  // ----- the encoder's matrix, also for counts whose sum wraps

  /** The weight of data unit d in parity slot x, both 32 bits wide: the inverse of their sum, which is 0 when the
      sum does not fit the field. */
  ghost function WideWeight(x: nat, d: nat): Elem {
    if x / 65536 == d / 65536 then Recip(Coord(x % 65536), Coord(d % 65536)) else ZERO
  }

  ghost function ParityWeight(nd: nat, i: nat, d: nat): Elem { WideWeight(Wrap32(nd + i), d) }

  ghost predicate IsEncoder(m: Matrix, nd: nat, nr: nat) {
    && Rectangular(m, nr, nd)
    && forall i: nat, d: nat | i < nr && d < nd :: m[i][d] == ParityWeight(nd, i, d)
  }

  lemma EncoderIsGenerator(m: Matrix, nd: nat, nr: nat)
    requires IsEncoder(m, nd, nr) && Accepted(nd, nr) && nd + nr < TWO32
    ensures IsGenerator(m, nd, nr)
  {
    hide Weight, ParityWeight;
    forall i: nat, d: nat | i < nr && d < nd ensures m[i][d] == Weight(nd + i, d) {
      SmallWeight(nd, i, d);
    }
  }

  lemma SmallWeight(nd: nat, i: nat, d: nat)
    requires nd + i < 65536 && d < 65536
    ensures ParityWeight(nd, i, d) == Weight(nd + i, d)
  {
    hide Recip, Coord;
  }

  /** Every parity unit sees every data unit. */
  ghost predicate Full(nd: nat, nr: nat) {
    forall i: nat, d: nat | i < nr && d < nd :: ParityWeight(nd, i, d) != ZERO
  }

  lemma RecipNonzero(x: Elem, y: Elem)
    requires x != y
    ensures Recip(x, y) != ZERO
  {
    hide Mul, Recip;
    RecipInverse(x, y);
    ZeroMul(Add(x, y));
  }

  /** Counts that the guard admits make a working encoder exactly when their sum does not wrap: otherwise some
      parity unit does not see some data unit. */
  lemma FullExactly(nd: nat, nr: nat)
    requires nd < TWO32 && nr < TWO32 && Accepted(nd, nr)
    ensures Full(nd, nr) <==> nd + nr < TWO32
  {
    hide Recip, Coord;
    if nd + nr < TWO32 {
      forall i: nat, d: nat | i < nr && d < nd ensures ParityWeight(nd, i, d) != ZERO {
        CoordInjective(nd + i, d);
        RecipNonzero(Coord(nd + i), Coord(d));
      }
    } else if nd > GF_SIZE {
      assert ParityWeight(nd, 0, 0) == ZERO;
    } else {
      assert ParityWeight(nd, 65536 - nd, 0) == ZERO;
    }
  }

  /** Two counts that the guard admits although their sum is far beyond the field. */
  lemma WrappedCountsAccepted()
    ensures Accepted(0xFFFF_FFFF, 2) && !Representable(0xFFFF_FFFF, 2) && !Full(0xFFFF_FFFF, 2)
  {
    hide Full;
    FullExactly(0xFFFF_FFFF, 2);
  }

  /** One weight as the source computes it: the 32-bit sum exceeds the field exactly when the upper halves differ. */
  method WideSlotWeight(field: GfField, x: nat, d: nat) returns (w: Elem)
    requires field.Valid()
    ensures w == WideWeight(x, d)
  {
    if x / 65536 != d / 65536 { return ZERO; }
    w := field.GfInv(Add(Coord(x % 65536), Coord(d % 65536)));
  }

  /** fill_parity_coefficients. */
  method FillParityCoefficients(field: GfField, nd: nat, nr: nat) returns (mx: Matrix)
    requires field.Valid()
    ensures IsEncoder(mx, nd, nr)
    ensures forall i: nat, d: nat | i < nr && d < nd :: XorCoefficient(mx[i][d], Wrap32(nd + i), d)
  {
    hide WideWeight, XorCoefficient;
    mx := [];
    var i := 0;
    while i < nr
      invariant 0 <= i <= nr && Rectangular(mx, i, nd)
      invariant forall q: nat, d: nat | q < i && d < nd :: mx[q][d] == ParityWeight(nd, q, d)
    {
      var row: seq<Elem> := [];
      var d := 0;
      while d < nd
        invariant 0 <= d <= nd && |row| == d
        invariant forall c: nat | c < d :: row[c] == ParityWeight(nd, i, c)
      {
        var w := WideSlotWeight(field, Wrap32(nd + i), d);
        row := row + [w];
        d := d + 1;
      }
      mx := mx + [row];
      i := i + 1;
    }
    forall i: nat, d: nat | i < nr && d < nd ensures XorCoefficient(mx[i][d], Wrap32(nd + i), d) {
      WideWeightIs(Wrap32(nd + i), d);
    }
  }

  lemma WideWeightIs(x: nat, d: nat)
    ensures XorCoefficient(WideWeight(x, d), x, d)
  {
    hide InverseOfXor, Coord;
    WideInverse(x, d);
  }
}
