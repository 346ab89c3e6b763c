/** Folding one data block into one parity block: update_ecc_scalar of src/recovery/rs16.cpp. */
module EccUpdate {
  import opened Gf16
  import opened Gf16Primitive
  import opened ByteWords
  import opened GfTables

  type Block = seq<bv8>

  /** Little-endian word `w` of a block, zero past its end. */
  function WordAt(b: Block, w: nat): Elem { if 2 * w + 1 < |b| then Join(b[2 * w + 1], b[2 * w]) else ZERO }

  function PutWord(b: Block, w: nat, v: Elem): Block
    requires 2 * w + 1 < |b|
  {
    b[2 * w := Low(v)][2 * w + 1 := High(v)]
  }

  lemma PutWordGet(b: Block, w: nat, v: Elem, k: nat)
    requires 2 * w + 1 < |b|
    ensures WordAt(PutWord(b, w, v), k) == if k == w then v else WordAt(b, k)
  {
    hide High, Low, Join;
    JoinSplit(v);
  }

  lemma WordsDetermine(a: Block, b: Block)
    requires |a| == |b| && |a| % 2 == 0
    requires forall w: nat | 2 * w + 1 < |a| :: WordAt(a, w) == WordAt(b, w)
    ensures a == b
  {
    hide High, Low, Join;
    forall i: nat | i < |a| ensures a[i] == b[i] {
      var w := i / 2;
      assert WordAt(a, w) == WordAt(b, w);
      SplitJoin(a[2 * w + 1], a[2 * w]);
      SplitJoin(b[2 * w + 1], b[2 * w]);
    }
  }

  /** The word that folding adds to: zero for the first data unit, whose call clears the block. */
  function Base(first: bool, ecc: Block, w: nat): Elem { if first then ZERO else WordAt(ecc, w) }

  function Clear(n: nat): Block { seq(n, _ => 0) }

  lemma ClearWord(n: nat, w: nat)
    ensures WordAt(Clear(n), w) == ZERO
  {
    assert Join(0, 0) == ZERO;
  }

  function XorByte(a: bv8, b: bv8): bv8 { a ^ b }

  /** The trailing byte of an odd block only takes the low half of its product. */
  function TailByte(coeff: Elem, data: bv8): bv8 { Low(Mul(coeff, Join(0, data))) }

  // ----- multiplication by a constant through two byte tables

  lemma JoinIsSum(h: bv8, l: bv8)
    ensures Join(h, l) == Add(Join(0, l), Join(h, 0))
  {
    assert (h as bv16 << 8) | (l as bv16) == (l as bv16) ^ (h as bv16 << 8);
  }

  lemma TableSplit(coeff: Elem, v: Elem)
    ensures Add(Mul(coeff, Join(0, Low(v))), Mul(coeff, Join(High(v), 0))) == Mul(coeff, v)
  {
    hide *;
    JoinSplit(v);
    JoinIsSum(High(v), Low(v));
    MulAdd(coeff, Join(0, Low(v)), Join(High(v), 0));
  }

  lemma ByteBack(b: bv8)
    ensures 0 <= b as nat < 256 && ByteOf(b as nat) == b
  {
    hide ByteOf;
    ByteValue(b as nat);
    ByteInjective(ByteOf(b as nat), b);
  }

  ghost predicate ByteTables(coeff: Elem, lo: seq<Elem>, hi: seq<Elem>) {
    && |lo| == 256 && |hi| == 256
    && (forall i: nat | i < 256 :: lo[i] == Mul(coeff, Join(0, ByteOf(i))))
    && (forall i: nat | i < 256 :: hi[i] == Mul(coeff, Join(ByteOf(i), 0)))
  }

  method BuildByteTables(field: GfField, coeff: Elem) returns (lo: seq<Elem>, hi: seq<Elem>)
    requires field.Valid()
    ensures ByteTables(coeff, lo, hi)
  {
    hide Mul, Join, ByteOf;
    lo, hi := [], [];
    var i := 0;
    while i < 256
      invariant 0 <= i <= 256 && |lo| == i && |hi| == i
      invariant forall k: nat | k < i :: lo[k] == Mul(coeff, Join(0, ByteOf(k)))
      invariant forall k: nat | k < i :: hi[k] == Mul(coeff, Join(ByteOf(k), 0))
    {
      lo := lo + [field.GfMul(coeff, Join(0, ByteOf(i)))];
      hi := hi + [field.GfMul(coeff, Join(ByteOf(i), 0))];
      i := i + 1;
    }
  }

  lemma TableLookup(coeff: Elem, lo: seq<Elem>, hi: seq<Elem>, v: Elem)
    requires ByteTables(coeff, lo, hi)
    ensures 0 <= Low(v) as nat < 256 && 0 <= High(v) as nat < 256
    ensures Add(lo[Low(v) as nat], hi[High(v) as nat]) == Mul(coeff, v)
  {
    hide Add, Mul, Join, Low, High, ByteOf;
    ByteBack(Low(v));
    ByteBack(High(v));
    TableSplit(coeff, v);
  }

  const TABLE_AMORTISE_BYTES: nat := 2048

  /** What one fold leaves in the parity block. */
  ghost predicate Folded(coeff: Elem, first: bool, data: Block, ecc: Block, out: Block)
    requires |data| == |ecc|
  {
    && |out| == |ecc|
    && (forall w: nat | 2 * w + 1 < |ecc| :: WordAt(out, w) == Add(Base(first, ecc, w), Mul(coeff, WordAt(data, w))))
    && (|ecc| % 2 == 1 ==>
          out[|ecc| - 1] == XorByte(if first then 0 else ecc[|ecc| - 1], TailByte(coeff, data[|ecc| - 1])))
  }

  /** All whole words folded, a trailing byte kept. */
  ghost predicate WordsFolded(coeff: Elem, data: Block, start: Block, out: Block, n: nat) {
    && |out| == |start|
    && (forall k: nat | k < n :: WordAt(out, k) == Add(WordAt(start, k), Mul(coeff, WordAt(data, k))))
    && (forall k: nat | k >= n :: WordAt(out, k) == WordAt(start, k))
    && (|start| % 2 == 1 ==> out[|start| - 1] == start[|start| - 1])
  }

  lemma FoldStep(coeff: Elem, data: Block, start: Block, out: Block, w: nat, v: Elem)
    requires 2 * w + 1 < |start| && WordsFolded(coeff, data, start, out, w)
    requires v == Add(WordAt(out, w), Mul(coeff, WordAt(data, w)))
    ensures WordsFolded(coeff, data, start, PutWord(out, w, v), w + 1)
  {
    hide Add, Mul, WordAt, PutWord;
    PutWordFrame(out, w, v);
  }

  /** Short blocks: one table multiplication per word. */
  method FoldDirect(field: GfField, coeff: Elem, data: Block, start: Block) returns (out: Block)
    requires field.Valid() && |data| == |start|
    ensures WordsFolded(coeff, data, start, out, |start| / 2)
  {
    hide Add, Mul, WordAt, PutWord;
    out := start;
    var w := 0;
    while w < |start| / 2
      invariant 0 <= w <= |start| / 2 && WordsFolded(coeff, data, start, out, w)
    {
      var v := Add(WordAt(out, w), field.GfMul(coeff, WordAt(data, w)));
      FoldStep(coeff, data, start, out, w, v);
      out := PutWord(out, w, v);
      w := w + 1;
    }
  }

  /** Long blocks: two byte tables of the coefficient. */
  method FoldTables(field: GfField, coeff: Elem, data: Block, start: Block) returns (out: Block)
    requires field.Valid() && |data| == |start|
    ensures WordsFolded(coeff, data, start, out, |start| / 2)
  {
    hide Add, Mul, WordAt, PutWord, Low, High, ByteTables;
    var lo, hi := BuildByteTables(field, coeff);
    TableSizes(coeff, lo, hi);
    out := start;
    var w := 0;
    while w < |start| / 2
      invariant 0 <= w <= |start| / 2 && WordsFolded(coeff, data, start, out, w)
    {
      var b := WordAt(data, w);
      TableLookup(coeff, lo, hi, b);
      var v := Add(WordAt(out, w), Add(lo[Low(b) as nat], hi[High(b) as nat]));
      FoldStep(coeff, data, start, out, w, v);
      out := PutWord(out, w, v);
      w := w + 1;
    }
  }

  lemma TableSizes(coeff: Elem, lo: seq<Elem>, hi: seq<Elem>)
    requires ByteTables(coeff, lo, hi)
    ensures |lo| == 256 && |hi| == 256
  {
  }

  /** update_ecc_scalar: the direct path of short blocks and the table path of long ones compute the same fold. */
  method UpdateEcc(field: GfField, coeff: Elem, first: bool, data: Block, ecc: Block) returns (out: Block)
    requires field.Valid() && |data| == |ecc|
    ensures Folded(coeff, first, data, ecc, out)
  {
    hide Add, Mul, WordAt, Low, Join, XorByte;
    var n := |ecc|;
    var start := if first then Clear(n) else ecc;
    if coeff == ZERO {
      ZeroFold(first, data, ecc, start);
      return start;
    }
    if n < TABLE_AMORTISE_BYTES {
      out := FoldDirect(field, coeff, data, start);
    } else {
      out := FoldTables(field, coeff, data, start);
    }
    ghost var words := out;
    if n % 2 != 0 {
      var last := n - 1;
      var product := field.GfMul(coeff, Join(0, data[last]));
      out := out[last := XorByte(out[last], Low(product))];
    }
    FoldDone(coeff, first, data, ecc, start, words, out);
  }

  lemma FoldDone(coeff: Elem, first: bool, data: Block, ecc: Block, start: Block, words: Block, out: Block)
    requires |data| == |ecc| && start == (if first then Clear(|ecc|) else ecc)
    requires WordsFolded(coeff, data, start, words, |start| / 2)
    requires out == if |ecc| % 2 != 0
        then words[|ecc| - 1 := XorByte(words[|ecc| - 1], Low(Mul(coeff, Join(0, data[|ecc| - 1]))))] else words
    ensures Folded(coeff, first, data, ecc, out)
  {
    hide Add, Mul, WordAt, Low, Join, XorByte;
    StartBase(first, ecc, start);
    if |ecc| % 2 != 0 { PutLast(words, out[|ecc| - 1]); }
  }

  lemma StartBase(first: bool, ecc: Block, start: Block)
    requires start == if first then Clear(|ecc|) else ecc
    ensures forall w: nat :: WordAt(start, w) == Base(first, ecc, w)
  {
    hide WordAt, Clear;
    forall w: nat ensures WordAt(start, w) == Base(first, ecc, w) {
      ClearWord(|ecc|, w);
    }
  }

  lemma ZeroFold(first: bool, data: Block, ecc: Block, start: Block)
    requires |data| == |ecc| && start == if first then Clear(|ecc|) else ecc
    ensures Folded(ZERO, first, data, ecc, start)
  {
    hide Add, Mul, WordAt;
    StartBase(first, ecc, start);
    forall w: nat | 2 * w + 1 < |ecc|
      ensures WordAt(start, w) == Add(Base(first, ecc, w), Mul(ZERO, WordAt(data, w)))
    {
      ZeroMul(WordAt(data, w));
      AddZero(Base(first, ecc, w));
    }
    if |ecc| % 2 == 1 {
      ZeroMul(Join(0, data[|ecc| - 1]));
      LowZero();
    }
  }

  lemma LowZero()
    ensures Low(ZERO) == 0
  {
  }

  lemma PutWordFrame(b: Block, w: nat, v: Elem)
    requires 2 * w + 1 < |b|
    ensures |PutWord(b, w, v)| == |b|
    ensures forall k: nat :: WordAt(PutWord(b, w, v), k) == if k == w then v else WordAt(b, k)
    ensures |b| % 2 == 1 ==> PutWord(b, w, v)[|b| - 1] == b[|b| - 1]
  {
    hide WordAt, Low, High;
    forall k: nat ensures WordAt(PutWord(b, w, v), k) == if k == w then v else WordAt(b, k) {
      PutWordGet(b, w, v, k);
    }
  }

  lemma PutLast(b: Block, v: bv8)
    requires |b| % 2 == 1
    ensures forall k: nat :: WordAt(b[|b| - 1 := v], k) == WordAt(b, k)
  {
  }
}
