/** The generator class PyMt of tools/bench_run.cpp, against the recurrence that defines MT19937. */
module MersenneTwister {
  import Crc
  import opened BinaryTerms

  const N: nat := 624
  const M: nat := 397

  /** A 32-bit word as its bits, lowest first. */
  type Word = w: Crc.Bits | |w| == 32 witness Crc.Zeros(32)

  const MATRIX: Word := Crc.Digits(0x9908_b0df, 32)

  function Xor(a: Word, b: Word): Word { seq(32, i requires 0 <= i < 32 => a[i] != b[i]) }

  function And(a: Word, b: Word): Word { seq(32, i requires 0 <= i < 32 => a[i] && b[i]) }

  function ShiftRight(a: Word, k: nat): Word
    requires k <= 32
  {
    a[k..] + Crc.Zeros(k)
  }

  function ShiftLeft(a: Word, k: nat): Word
    requires k <= 32
  {
    Crc.Zeros(k) + a[..32 - k]
  }

  /** The matrix step on the top bit of one word and the lower bits of the next. */
  function Mix(a: Word, b: Word): Word {
    var y: Word := b[..31] + [a[31]];
    if y[0] then Xor(ShiftRight(y, 1), MATRIX) else ShiftRight(y, 1)
  }

  type State = s: seq<Word> | |s| == N witness seq(N, i => Crc.Zeros(32))

  /** The sequence x[k + 624] = x[k + 397] xor Mix(x[k], x[k + 1]) from a starting state. */
  function X(start: State, k: nat): Word {
    if k < N then start[k] else Xor(X(start, k - N + M), Mix(X(start, k - N), X(start, k - N + 1)))
  }

  lemma Recurrence(start: State, k: nat)
    ensures X(start, k + 624) == Xor(X(start, k + 397), Mix(X(start, k), X(start, k + 1)))
  {
  }

  // ----- Tempering

  const MASK_B: Word := Crc.Digits(0x9d2c_5680, 32)
  const MASK_C: Word := Crc.Digits(0xefc6_0000, 32)

  function FoldRight(y: Word, k: nat): Word
    requires k <= 32
  {
    Xor(y, ShiftRight(y, k))
  }

  function FoldLeft(y: Word, k: nat, mask: Word): Word
    requires k <= 32
  {
    Xor(y, And(ShiftLeft(y, k), mask))
  }

  function Temper(y: Word): Word { FoldRight(FoldLeft(FoldLeft(FoldRight(y, 11), 7, MASK_B), 15, MASK_C), 18) }

  /** Bits agree from the top down. */
  lemma {:induction false} FoldRightBit(y: Word, z: Word, k: nat, i: nat)
    requires 0 < k <= 32 && FoldRight(y, k) == FoldRight(z, k) && i < 32
    ensures y[i] == z[i]
    decreases 32 - i
  {
    assert FoldRight(y, k)[i] == FoldRight(z, k)[i];
    if i + k < 32 { FoldRightBit(y, z, k, i + k); }
  }

  /** Bits agree from the bottom up. */
  lemma {:induction false} FoldLeftBit(y: Word, z: Word, k: nat, mask: Word, i: nat)
    requires 0 < k <= 32 && FoldLeft(y, k, mask) == FoldLeft(z, k, mask) && i < 32
    ensures y[i] == z[i]
  {
    assert FoldLeft(y, k, mask)[i] == FoldLeft(z, k, mask)[i];
    if i >= k { FoldLeftBit(y, z, k, mask, i - k); }
  }

  lemma FoldRightInjective(y: Word, z: Word, k: nat)
    requires 0 < k <= 32 && FoldRight(y, k) == FoldRight(z, k)
    ensures y == z
  {
    forall i | 0 <= i < 32 ensures y[i] == z[i] { FoldRightBit(y, z, k, i); }
  }

  lemma FoldLeftInjective(y: Word, z: Word, k: nat, mask: Word)
    requires 0 < k <= 32 && FoldLeft(y, k, mask) == FoldLeft(z, k, mask)
    ensures y == z
  {
    forall i | 0 <= i < 32 ensures y[i] == z[i] { FoldLeftBit(y, z, k, mask, i); }
  }

  /** Tempering loses nothing: different words of the sequence give different outputs. */
  lemma TemperInjective(a: Word, b: Word)
    requires Temper(a) == Temper(b)
    ensures a == b
  {
    hide FoldLeft, FoldRight;
    var a1, b1 := FoldRight(a, 11), FoldRight(b, 11);
    var a2, b2 := FoldLeft(a1, 7, MASK_B), FoldLeft(b1, 7, MASK_B);
    FoldRightInjective(FoldLeft(a2, 15, MASK_C), FoldLeft(b2, 15, MASK_C), 18);
    FoldLeftInjective(a2, b2, 15, MASK_C);
    FoldLeftInjective(a1, b1, 7, MASK_B);
    FoldRightInjective(a, b, 11);
  }

  // ----- The steps bit by bit

  const MATRIX_BITS: seq<nat> := [0, 1, 2, 3, 4, 6, 7, 12, 13, 15, 19, 24, 27, 28, 31]

  const TEMPER_B_BITS: seq<nat> := [7, 9, 10, 12, 14, 18, 19, 21, 24, 26, 27, 28, 31]

  const TEMPER_C_BITS: seq<nat> := [17, 18, 22, 23, 24, 25, 26, 27, 29, 30, 31]

  lemma MatrixBytes()
    ensures FourTerms(0x9908B0DF, 28) + FourTerms(0x9908B0D, 24) == [31, 30, 29, 28, 27, 25, 24]
    ensures FourTerms(0x9908B0, 20) + FourTerms(0x9908B, 16) == [19, 18, 16]
    ensures FourTerms(0x9908, 12) + FourTerms(0x990, 8) == [12]
    ensures FourTerms(0x99, 4) + FourTerms(0x9, 0) == [7, 4, 3, 0]
  {
    assert FourTerms(0x9908B0DF, 28) == [31, 30, 29, 28];
    assert FourTerms(0x9908B0D, 24) == [27, 25, 24];
    assert FourTerms(0x9908B0, 20) == [];
    assert FourTerms(0x9908B, 16) == [19, 18, 16];
    assert FourTerms(0x9908, 12) == [12];
    assert FourTerms(0x990, 8) == [];
    assert FourTerms(0x99, 4) == [7, 4];
    assert FourTerms(0x9, 0) == [3, 0];
  }

  lemma MatrixBit(i: nat)
    requires i < 32
    ensures MATRIX[i] <==> i in MATRIX_BITS
  {
    hide FourTerms, Exponents, Crc.Digits;
    MatrixBytes();
    ByteTerms(0x9908B0DF, 24, [31, 30, 29, 28, 27, 25, 24]);
    ByteTerms(0x9908B0, 16, [19, 18, 16]);
    ByteTerms(0x9908, 8, [12]);
    ByteTerms(0x99, 0, [7, 4, 3, 0]);
    NoTerms();
    ExponentsAre(0x9908B0DF, 32, 31 - i);
  }

  lemma TemperBBytes()
    ensures FourTerms(0x9D2C5680, 28) + FourTerms(0x9D2C568, 24) == [24]
    ensures FourTerms(0x9D2C56, 20) + FourTerms(0x9D2C5, 16) == [22, 21, 19, 17]
    ensures FourTerms(0x9D2C, 12) + FourTerms(0x9D2, 8) == [13, 12, 10]
    ensures FourTerms(0x9D, 4) + FourTerms(0x9, 0) == [7, 5, 4, 3, 0]
  {
    assert FourTerms(0x9D2C5680, 28) == [];
    assert FourTerms(0x9D2C568, 24) == [24];
    assert FourTerms(0x9D2C56, 20) == [22, 21];
    assert FourTerms(0x9D2C5, 16) == [19, 17];
    assert FourTerms(0x9D2C, 12) == [13, 12];
    assert FourTerms(0x9D2, 8) == [10];
    assert FourTerms(0x9D, 4) == [7, 5, 4];
    assert FourTerms(0x9, 0) == [3, 0];
  }

  lemma TemperBBit(i: nat)
    requires i < 32
    ensures MASK_B[i] <==> i in TEMPER_B_BITS
  {
    hide FourTerms, Exponents, Crc.Digits;
    TemperBBytes();
    ByteTerms(0x9D2C5680, 24, [24]);
    ByteTerms(0x9D2C56, 16, [22, 21, 19, 17]);
    ByteTerms(0x9D2C, 8, [13, 12, 10]);
    ByteTerms(0x9D, 0, [7, 5, 4, 3, 0]);
    NoTerms();
    ExponentsAre(0x9D2C5680, 32, 31 - i);
  }

  lemma TemperCBytes()
    ensures FourTerms(0xEFC60000, 28) + FourTerms(0xEFC6000, 24) == []
    ensures FourTerms(0xEFC600, 20) + FourTerms(0xEFC60, 16) == []
    ensures FourTerms(0xEFC6, 12) + FourTerms(0xEFC, 8) == [14, 13, 9, 8]
    ensures FourTerms(0xEF, 4) + FourTerms(0xE, 0) == [7, 6, 5, 4, 2, 1, 0]
  {
    assert FourTerms(0xEFC60000, 28) == [];
    assert FourTerms(0xEFC6000, 24) == [];
    assert FourTerms(0xEFC600, 20) == [];
    assert FourTerms(0xEFC60, 16) == [];
    assert FourTerms(0xEFC6, 12) == [14, 13];
    assert FourTerms(0xEFC, 8) == [9, 8];
    assert FourTerms(0xEF, 4) == [7, 6, 5, 4];
    assert FourTerms(0xE, 0) == [2, 1, 0];
  }

  lemma TemperCBit(i: nat)
    requires i < 32
    ensures MASK_C[i] <==> i in TEMPER_C_BITS
  {
    hide FourTerms, Exponents, Crc.Digits;
    TemperCBytes();
    ByteTerms(0xEFC60000, 24, []);
    ByteTerms(0xEFC600, 16, []);
    ByteTerms(0xEFC6, 8, [14, 13, 9, 8]);
    ByteTerms(0xEF, 0, [7, 6, 5, 4, 2, 1, 0]);
    NoTerms();
    ExponentsAre(0xEFC60000, 32, 31 - i);
  }

  /** Bit i of the matrix step: the joined word moved down by one, and the matrix added when its lowest bit is set. */
  lemma MixBit(a: Word, b: Word, i: nat)
    requires i < 32
    ensures Mix(a, b)[i] == ((if i == 30 then a[31] else i < 30 && b[i + 1]) != (b[0] && i in MATRIX_BITS))
  {
    hide Crc.Digits;
    MatrixBit(i);
  }

  /** The four tempering steps on bit i. */
  predicate First(y: Word, i: nat)
    requires i < 32
  {
    y[i] != (i + 11 < 32 && y[i + 11])
  }

  predicate Second(y: Word, i: nat)
    requires i < 32
  {
    First(y, i) != (i in TEMPER_B_BITS && i >= 7 && First(y, i - 7))
  }

  predicate Third(y: Word, i: nat)
    requires i < 32
  {
    Second(y, i) != (i in TEMPER_C_BITS && i >= 15 && Second(y, i - 15))
  }

  lemma TemperBit(y: Word, i: nat)
    requires i < 32
    ensures Temper(y)[i] == (Third(y, i) != (i + 18 < 32 && Third(y, i + 18)))
  {
    hide Crc.Digits;
    var y1 := FoldRight(y, 11);
    var y2 := FoldLeft(y1, 7, MASK_B);
    var y3 := FoldLeft(y2, 15, MASK_C);
    forall k: nat | k < 32 ensures y1[k] == First(y, k) {}
    forall k: nat | k < 32 ensures y2[k] == Second(y, k) { TemperBBit(k); }
    forall k: nat | k < 32 ensures y3[k] == Third(y, k) { TemperCBit(k); }
  }

  // ----- The generator

  class PyMt {
    const mt: array<Word>
    var idx: nat
    ghost const start: State
    /** How many words of the sequence precede mt[0]. */
    ghost var base: nat

    ghost predicate Valid()
      reads this, mt
    {
      && mt.Length == N && idx <= N
      && forall j :: 0 <= j < N ==> mt[j] == X(start, base + j)
    }

    /** The place in the sequence of the next output. */
    ghost function Position(): nat
      reads this
    {
      base + idx
    }

    /** A seeded generator: the state as given, twisted before the first output or not. */
    constructor (seeded: State, twistFirst: bool)
      ensures Valid() && fresh(mt) && start == seeded && Position() == if twistFirst then N else 0
    {
      hide X;
      mt := new Word[N](i requires 0 <= i < N => seeded[i]);
      idx := if twistFirst then N else 0;
      start, base := seeded, 0;
      new;
      forall j | 0 <= j < N ensures mt[j] == X(start, base + j) { Starts(start, j); }
    }

    /** twist: the next 624 words replace the current ones in place. */
    method Twist()
      requires Valid()
      modifies this, mt
      ensures Valid() && base == old(base) + N && idx == 0
    {
      hide X, Mix, Xor;
      var kk := 0;
      while kk < N - M
        invariant 0 <= kk <= N - M && base == old(base)
        invariant forall j :: 0 <= j < kk ==> mt[j] == X(start, base + N + j)
        invariant forall j :: kk <= j < N ==> mt[j] == X(start, base + j)
      {
        Recurrence(start, base + kk);
        mt[kk] := Xor(mt[kk + M], Mix(mt[kk], mt[kk + 1]));
        kk := kk + 1;
      }
      while kk < N - 1
        invariant N - M <= kk <= N - 1 && base == old(base)
        invariant forall j :: 0 <= j < kk ==> mt[j] == X(start, base + N + j)
        invariant forall j :: kk <= j < N ==> mt[j] == X(start, base + j)
      {
        Recurrence(start, base + kk);
        mt[kk] := Xor(mt[kk + M - N], Mix(mt[kk], mt[kk + 1]));
        kk := kk + 1;
      }
      Recurrence(start, base + N - 1);
      mt[N - 1] := Xor(mt[M - 1], Mix(mt[N - 1], mt[0]));
      idx := 0;
      base := base + N;
    }

    /** genrand: the tempered next word of the sequence. */
    method Genrand() returns (y: Word)
      requires Valid()
      modifies this, mt
      ensures Valid() && Position() == old(Position()) + 1
      ensures y == Temper(X(start, old(Position())))
    {
      hide X, Temper;
      if idx >= N { Twist(); }
      y := Temper(mt[idx]);
      idx := idx + 1;
    }

    /** However many words are drawn, the k-th of them is the tempered word at its place in the sequence. */
    method Draw(n: nat) returns (out: seq<Word>)
      requires Valid()
      modifies this, mt
      ensures Valid() && |out| == n && Position() == old(Position()) + n
      ensures forall k :: 0 <= k < n ==> out[k] == Temper(X(start, old(Position()) + k))
    {
      hide X, Temper;
      out := [];
      for i := 0 to n
        invariant Valid() && |out| == i && Position() == old(Position()) + i
        invariant forall k :: 0 <= k < i ==> out[k] == Temper(X(start, old(Position()) + k))
      {
        var y := Genrand();
        out := out + [y];
      }
    }
  }

  lemma Starts(start: State, j: nat)
    requires j < N
    ensures X(start, j) == start[j]
  {
  }
}
