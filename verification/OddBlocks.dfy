/** For which block sizes encoding and decoding by update_ecc (src/recovery/rs16.cpp) restore every loss: the even
    ones, because the trailing byte of an odd block is folded with truncated products. */
module OddBlocks {
  import opened Gf16
  import opened Gf16Primitive
  import opened ByteWords
  import opened Gf16Field
  import opened Gf16Sums
  import opened SquareInverse
  import opened ErasureCode
  import opened ReedSolomon
  import opened EccUpdate
  import opened RecoveryRecord

  // ----- encoding, losing and decoding blocks of n bytes

  /** The call of update_ecc for block k - 1 turns `before` into `out` in row e. */
  ghost predicate CallFolds(mx: Matrix, e: nat, k: nat, blocks: seq<Block>, before: Block, out: Block)
    requires 0 < k <= |blocks|
  {
    |before| == |blocks[k - 1]| && Folded(At(mx, e, k - 1), k == 1, blocks[k - 1], before, out)
  }

  /** `out` is what the calls of update_ecc for the first k blocks leave in row e; the first call clears it. */
  ghost predicate RowChain(mx: Matrix, e: nat, k: nat, blocks: seq<Block>, n: nat, out: Block)
    requires Blocks(blocks, |blocks|, n) && k <= |blocks|
  {
    && |out| == n
    && (k > 0 ==> exists before: Block ::
          CallFolds(mx, e, k, blocks, before, out) && RowChain(mx, e, k - 1, blocks, n, before))
  }

  /** An encoding of `data`, a loss of units, a matrix that recovers them, and what decoding gives for the e-th. */
  datatype Loss = Loss(nd: nat, nr: nat, valid: seq<bool>, gen: Matrix, mx: Matrix,
                       data: seq<Block>, parity: seq<Block>, work: seq<Block>, e: nat, out: Block)

  ghost predicate Encoded(l: Loss, n: nat) {
    && Representable(l.nd, l.nr) && IsGenerator(l.gen, l.nd, l.nr)
    && Blocks(l.data, l.nd, n) && Blocks(l.parity, l.nr, n)
    && forall r: nat | r < l.nr :: RowChain(l.gen, r, l.nd, l.data, n, l.parity[r])
  }

  ghost predicate Decoded(l: Loss, n: nat) {
    && Encoded(l, n) && |l.valid| == l.nd + l.nr && Recoverable(l.valid, l.nd)
    && Rectangular(l.mx, |Missing(l.valid, l.nd)|, l.nd) && Recovers(l.mx, l.nd, l.valid, Substitutes(l.valid, l.nd))
    && Blocks(l.work, l.nd, n) && StandIns(l.parity, l.nd, l.valid, l.nd, l.work)
    && (forall d: nat | d < l.nd && l.valid[d] :: l.work[d] == l.data[d])
    && l.e < |Missing(l.valid, l.nd)| && RowChain(l.mx, l.e, l.nd, l.work, n, l.out)
  }

  ghost predicate Restored(l: Loss) {
    && l.nd <= |l.valid| && l.e < |Missing(l.valid, l.nd)| && Missing(l.valid, l.nd)[l.e] < |l.data|
    && l.out == l.data[Missing(l.valid, l.nd)[l.e]]
  }

  /** Every recoverable loss of blocks of n bytes is restored, for all counts, flags and data. */
  ghost predicate RestoresAll(n: nat) { forall l: Loss :: Decoded(l, n) ==> Restored(l) }

  // ----- even blocks

  lemma {:induction false} ChainFolds(mx: Matrix, rows: nat, e: nat, k: nat, blocks: seq<Block>, n: nat, out: Block)
    requires Blocks(blocks, |blocks|, n) && 0 < k <= |blocks| && e < rows && Rectangular(mx, rows, |blocks|)
    requires RowChain(mx, e, k, blocks, n, out)
    ensures RowFolded(mx, k, e, blocks, out)
    decreases k
  {
    hide Folded, RowFolded;
    var before: Block :| CallFolds(mx, e, k, blocks, before, out) && RowChain(mx, e, k - 1, blocks, n, before);
    if k > 1 { ChainFolds(mx, rows, e, k - 1, blocks, n, before); }
    FoldExtendsRow(mx, k - 1, e, blocks, n, before, out);
  }

  /** The words of an encoded parity block are the parity of the data words. */
  lemma ParityWords(l: Loss, n: nat, r: nat, w: nat)
    requires Encoded(l, n) && r < l.nr && 2 * w + 1 < n
    ensures WordAt(l.parity[r], w) == ParityUnit(l.nd, l.nd + r, Slice(l.data, w))
  {
    hide Add, Mul, Sum, Weight, WordAt;
    ChainFolds(l.gen, l.nr, r, l.nd, l.data, n, l.parity[r]);
    var x := Slice(l.data, w);
    var f, g := (j: nat) => Mul(At(l.gen, r, j), x(j)), (d: nat) => Mul(Weight(l.nd + r, d), x(d));
    forall d: nat | d < l.nd ensures f(d) == g(d) { assert At(l.gen, r, d) == l.gen[r][d] == Weight(l.nd + r, d); }
    SumEqual(l.nd, f, g);
  }

  lemma LossWords(l: Loss, n: nat, w: nat)
    requires Decoded(l, n) && 2 * w + 1 < n
    ensures WorkingSlots(l.nd, l.valid, Substitutes(l.valid, l.nd), Slice(l.data, w), Slice(l.work, w))
  {
    hide WordAt, ParityUnit, Missing, Present, RowChain, IsGenerator, Recovers;
    PresentFacts(l.valid, l.nd, |l.valid|);
    forall r: nat | r < |Substitutes(l.valid, l.nd)| && r < |Missing(l.valid, l.nd)|
      ensures Slice(l.work, w)(Missing(l.valid, l.nd)[r]) ==
          ParityUnit(l.nd, Substitutes(l.valid, l.nd)[r], Slice(l.data, w))
    {
      var s := Substitutes(l.valid, l.nd)[r];
      assert s == Present(l.valid, l.nd, |l.valid|)[r];
      ParityWords(l, n, s - l.nd, w);
    }
  }

  lemma EvenRestored(l: Loss, n: nat)
    requires n % 2 == 0 && Decoded(l, n)
    ensures Restored(l)
  {
    hide WordAt, RowChain, IsGenerator, RowDot, WorkingSlots, Substitutes, Missing, StandIns;
    MissingFacts(l.valid, l.nd);
    var truth := l.data[Missing(l.valid, l.nd)[l.e]];
    ChainFolds(l.mx, |Missing(l.valid, l.nd)|, l.e, l.nd, l.work, n, l.out);
    ChainLength(l.mx, l.e, l.nd, l.work, n, l.out);
    forall w: nat | 2 * w + 1 < n ensures WordAt(l.out, w) == WordAt(truth, w) {
      LossWords(l, n, w);
      assert Slice(l.data, w)(Missing(l.valid, l.nd)[l.e]) == WordAt(truth, w);
    }
    WordsDetermine(l.out, truth);
  }

  lemma ChainLength(mx: Matrix, e: nat, k: nat, blocks: seq<Block>, n: nat, out: Block)
    requires Blocks(blocks, |blocks|, n) && k <= |blocks| && RowChain(mx, e, k, blocks, n, out)
    ensures |out| == n
  {
  }

  // ----- odd blocks: two units of one parity unit, the first lost, its trailing byte 1

  lemma HalfIsInverseOfTwo()
    ensures Mul(Word(2), Word(0x8805)) == ONE
  {
    MulIsMulSteps(2, 0x8805);
  }

  lemma SlotTwo()
    ensures Coord(2) == Word(2) && Coord(0) == ZERO
  {
    assert ByteOf(0) == 0 && ByteOf(2) == 2;
    assert (0 as bv8 as bv16 << 8) | (2 as bv8 as bv16) == 2;
  }

  /** The weight of data unit 0 in the only parity unit of a set of two. */
  lemma FirstWeight()
    ensures Weight(2, 0) == Word(0x8805)
  {
    hide Mul, Inv, Coord;
    SlotTwo();
    AddZero(Word(2));
    InverseLaw(Word(2));
    HalfIsInverseOfTwo();
    MulCancel(Word(2), Inv(Word(2)), Word(0x8805));
  }

  lemma Tails()
    ensures TailByte(Word(0x8805), 1) == 5 && TailByte(Word(2), 5) == 10
  {
    MulIsMulSteps(0x8805, 1);
    MulIsMulSteps(2, 5);
    assert Join(0, 1) == Word(1) && Join(0, 5) == Word(5);
  }

  lemma ZeroTail(c: Elem)
    ensures TailByte(c, 0) == 0
  {
    hide Mul;
    assert Join(0, 0) == ZERO;
    ZeroMul(c);
  }

  /** A block of zeros but for its last byte. */
  function Tail(n: nat, b: bv8): Block
    requires n > 0
  {
    Clear(n)[n - 1 := b]
  }

  lemma TailWord(n: nat, b: bv8, w: nat)
    requires n % 2 == 1
    ensures WordAt(Tail(n, b), w) == ZERO
  {
    hide WordAt;
    PutLast(Clear(n), b);
    ClearWord(n, w);
  }

  lemma TailFold(c: Elem, first: bool, n: nat, data: bv8, ecc: bv8)
    requires n % 2 == 1
    ensures Folded(c, first, Tail(n, data), Tail(n, ecc), Tail(n, (if first then 0 else ecc) ^ TailByte(c, data)))
  {
    hide WordAt, Add, Mul, TailByte;
    var out := Tail(n, (if first then 0 else ecc) ^ TailByte(c, data));
    forall w: nat | 2 * w + 1 < n
      ensures WordAt(out, w) == Add(Base(first, Tail(n, ecc), w), Mul(c, WordAt(Tail(n, data), w)))
    {
      TailWord(n, data, w);
      TailWord(n, ecc, w);
      TailWord(n, (if first then 0 else ecc) ^ TailByte(c, data), w);
      ZeroMul(c);
      AddZero(ZERO);
    }
  }

  /** Two calls on blocks that are zero but for their last bytes. */
  lemma TailChain(mx: Matrix, e: nat, n: nat, a: bv8, b: bv8, s: bv8, t: bv8)
    requires n % 2 == 1 && s == 0 ^ TailByte(At(mx, e, 0), a) && t == s ^ TailByte(At(mx, e, 1), b)
    ensures RowChain(mx, e, 2, [Tail(n, a), Tail(n, b)], n, Tail(n, t))
  {
    hide Folded, TailByte, At, Tail;
    var blocks := [Tail(n, a), Tail(n, b)];
    TailSize(n, a);
    TailSize(n, b);
    TailSize(n, s);
    TailSize(n, t);
    TailSize(n, 0);
    TailFold(At(mx, e, 0), true, n, a, 0);
    TailFold(At(mx, e, 1), false, n, b, s);
    assert CallFolds(mx, e, 1, blocks, Tail(n, 0), Tail(n, s)) && RowChain(mx, e, 0, blocks, n, Tail(n, 0));
    assert CallFolds(mx, e, 2, blocks, Tail(n, s), Tail(n, t)) && RowChain(mx, e, 1, blocks, n, Tail(n, s));
  }

  lemma TailSize(n: nat, b: bv8)
    requires n > 0
    ensures |Tail(n, b)| == n
  {
  }

  const ONE_LOST: seq<bool> := [false, true, true]

  lemma LostSlots()
    ensures Missing(ONE_LOST, 2) == [0] && Present(ONE_LOST, 2, 3) == [2] && Substitutes(ONE_LOST, 2) == [2]
  {
    assert Missing(ONE_LOST, 1) == [0];
    assert Present(ONE_LOST, 2, 2) == [];
  }

  /** The recovery matrix: unit 0 is the parity unit times two, plus what unit 1 put into it. */
  ghost function RecoveryMatrix(): Matrix { [[Word(2), Mul(Word(2), Weight(2, 1))]] }

  ghost function GeneratorMatrix(): Matrix { [[Weight(2, 0), Weight(2, 1)]] }

  lemma SingleRow(m: Matrix, x: Vector)
    ensures RowDot(m, 1, 0, x) == Mul(At(m, 0, 0), x(0))
  {
    hide Add, Mul, At;
    SumSingle(1, (j: nat) => Mul(At(m, 0, j), x(j)), 0);
  }

  lemma RecoveryMatrixRecovers()
    ensures Recovers(RecoveryMatrix(), 2, ONE_LOST, [2])
  {
    hide Mul, Weight, RowDot, Missing, Recovers;
    var m, w, mx: Matrix := [[Weight(2, 0)]], [[Word(2)]], RecoveryMatrix();
    LostSlots();
    FirstWeight();
    HalfIsInverseOfTwo();
    SingleRow(w, Column(m, 0));
    assert IsRightInverse(w, m, 1);
    RecoveryMatrixRow(mx, w);
    RowsRecover(mx, 2, ONE_LOST, [2], m, w);
  }

  lemma RecoveryMatrixRow(mx: Matrix, w: Matrix)
    requires mx == RecoveryMatrix() && w == [[Word(2)]]
    ensures RecoveryRow(2, ONE_LOST, [2], RowOf(w, 0), RowOf(mx, 0))
  {
    hide Mul, Weight, Missing, Sum;
    LostSlots();
    var solved, row := RowOf(w, 0), RowOf(mx, 0);
    var f := (i: nat) => Mul(solved(i), SubWeight([2], i, 1));
    SumSingle(1, f, 0);
    assert solved(0) == At(w, 0, 0) == Word(2) && SubWeight([2], 0, 1) == Weight(2, 1);
    assert row(1) == At(mx, 0, 1) == mx[0][1] && row(0) == At(mx, 0, 0) == mx[0][0];
  }

  /** The loss of the first of two blocks, whose last byte is 1. */
  ghost function OddLoss(n: nat): Loss
    requires n % 2 == 1
  {
    Loss(2, 1, ONE_LOST, GeneratorMatrix(), RecoveryMatrix(), [Tail(n, 1), Tail(n, 0)], [Tail(n, 5)],
         [Tail(n, 5), Tail(n, 0)], 0, Tail(n, 10))
  }

  lemma OddEncoded(n: nat)
    requires n % 2 == 1
    ensures Encoded(OddLoss(n), n)
  {
    hide Weight, TailByte, Tail, RowChain;
    FirstWeight();
    Tails();
    ZeroTail(Weight(2, 1));
    TailSize(n, 1);
    TailSize(n, 0);
    TailSize(n, 5);
    TailChain(GeneratorMatrix(), 0, n, 1, 0, 5, 5);
  }

  /** Every odd size has a recoverable loss that decoding does not restore: its trailing byte comes back as 10
      instead of 1. */
  lemma OddBlockNotRecovered(n: nat)
    requires n % 2 == 1
    ensures Decoded(OddLoss(n), n) && !Restored(OddLoss(n))
    ensures OddLoss(n).out[n - 1] == 10 && OddLoss(n).data[0][n - 1] == 1
  {
    hide Weight, TailByte, Mul, Encoded, Recovers, Missing, Present, Substitutes, RowChain;
    LostSlots();
    OddEncoded(n);
    RecoveryMatrixRecovers();
    Tails();
    ZeroTail(Mul(Word(2), Weight(2, 1)));
    TailSize(n, 0);
    TailSize(n, 5);
    TailSize(n, 10);
    TailChain(RecoveryMatrix(), 0, n, 5, 0, 10, 10);
  }

  /** Blocks of n bytes are always restored if and only if n is even. */
  lemma EvenExactly(n: nat)
    ensures RestoresAll(n) <==> n % 2 == 0
  {
    hide Decoded, Restored, OddLoss;
    if n % 2 == 0 {
      forall l: Loss | Decoded(l, n) ensures Restored(l) { EvenRestored(l, n); }
    } else {
      OddBlockNotRecovered(n);
    }
  }
}
