/** The field GF(2^16) of the recovery records: 16-bit words, XOR as addition, and
    carry-less multiplication modulo x^16 + x^12 + x^3 + x + 1 (0x1100B). */
module Gf16 {

  datatype Elem = Word(bits: bv16)

  const ZERO := Word(0)
  const ONE := Word(1)

  function Add(a: Elem, b: Elem): Elem { Word(Xor(a.bits, b.bits)) }

  function Xor(a: bv16, b: bv16): bv16 { a ^ b }

  /** Multiplication by the generator x. */
  function XTime(a: Elem): Elem { Word(ShiftReduce(a.bits)) }

  function ShiftReduce(v: bv16): bv16 { (v << 1) ^ (0x100B * (v >> 15)) }

  /** `a` when the low bit of `bit` is set, zero otherwise. */
  function Select(bit: bv16, a: Elem): Elem { if bit & 1 == 1 then a else ZERO }

  /** The product of `a` and the `n` low bits of `b`, by Horner's rule from the top bit down. */
  function MulBits(a: Elem, b: bv16, n: nat): Elem
    decreases n
  {
    if n == 0 then ZERO else Add(XTime(MulBits(a, b >> 1, n - 1)), Select(b, a))
  }

  function Mul(a: Elem, b: Elem): Elem { MulBits(a, b.bits, 16) }

  // ----- additive group

  lemma AddComm(a: Elem, b: Elem)
    ensures Add(a, b) == Add(b, a)
  {
  }

  lemma AddAssoc(a: Elem, b: Elem, c: Elem)
    ensures Add(Add(a, b), c) == Add(a, Add(b, c))
  {
    hide Xor;
    XorAssoc(a.bits, b.bits, c.bits);
  }

  lemma XorAssoc(a: bv16, b: bv16, c: bv16)
    ensures Xor(Xor(a, b), c) == Xor(a, Xor(b, c))
  {
    hide Xor;
    XorDef(a, b);
    XorDef(b, c);
    XorDef(a ^ b, c);
    XorDef(a, b ^ c);
  }

  lemma XorDef(a: bv16, b: bv16)
    ensures Xor(a, b) == a ^ b
  {
  }

  lemma AddSelf(a: Elem)
    ensures Add(a, a) == ZERO
  {
  }

  lemma AddZero(a: Elem)
    ensures Add(a, ZERO) == a && Add(ZERO, a) == a
  {
  }

  lemma AddExchange(a: Elem, b: Elem, c: Elem, d: Elem)
    ensures Add(Add(a, b), Add(c, d)) == Add(Add(a, c), Add(b, d))
  {
    hide *;
    AddAssoc(a, b, Add(c, d));
    AddAssoc(b, c, d);
    AddComm(b, c);
    AddAssoc(c, b, d);
    AddAssoc(a, c, Add(b, d));
  }

  // ----- the two linear building blocks

  lemma ShiftReduceXor(a: bv16, b: bv16)
    ensures ShiftReduce(a ^ b) == ShiftReduce(a) ^ ShiftReduce(b)
  {
  }

  lemma ShiftReduceLinear(a: bv16, b: bv16)
    ensures ShiftReduce(Xor(a, b)) == Xor(ShiftReduce(a), ShiftReduce(b))
  {
    hide *;
    XorDef(a, b);
    ShiftReduceXor(a, b);
    XorDef(ShiftReduce(a), ShiftReduce(b));
  }

  lemma XTimeAdd(a: Elem, b: Elem)
    ensures XTime(Add(a, b)) == Add(XTime(a), XTime(b))
  {
    hide ShiftReduce, Xor;
    ShiftReduceLinear(a.bits, b.bits);
  }

  lemma XTimeZero()
    ensures XTime(ZERO) == ZERO
  {
  }

  lemma SelectAdd(bit: bv16, a: Elem, b: Elem)
    ensures Select(bit, Add(a, b)) == Add(Select(bit, a), Select(bit, b))
  {
    hide Add;
    AddZero(ZERO);
  }

  // ----- multiplication is bilinear and commutes with XTime

  lemma MulBitsUnfold(a: Elem, b: bv16, n: nat)
    requires n > 0
    ensures MulBits(a, b, n) == Add(XTime(MulBits(a, b >> 1, n - 1)), Select(b, a))
  {
  }

  lemma {:induction false} MulBitsAddLeft(a: Elem, b: Elem, c: bv16, n: nat)
    ensures MulBits(Add(a, b), c, n) == Add(MulBits(a, c, n), MulBits(b, c, n))
    decreases n
  {
    if n > 0 {
      hide *;
      var p, q := MulBits(a, c >> 1, n - 1), MulBits(b, c >> 1, n - 1);
      MulBitsAddLeft(a, b, c >> 1, n - 1);
      XTimeAdd(p, q);
      SelectAdd(c, a, b);
      MulBitsUnfold(a, c, n);
      MulBitsUnfold(b, c, n);
      MulBitsUnfold(Add(a, b), c, n);
      AddExchange(XTime(p), XTime(q), Select(c, a), Select(c, b));
    } else {
      AddZero(ZERO);
    }
  }

  lemma {:induction false} MulBitsXTime(a: Elem, b: bv16, n: nat)
    ensures MulBits(XTime(a), b, n) == XTime(MulBits(a, b, n))
    decreases n
  {
    if n > 0 {
      hide *;
      MulBitsXTime(a, b >> 1, n - 1);
      MulBitsUnfold(a, b, n);
      MulBitsUnfold(XTime(a), b, n);
      XTimeAdd(XTime(MulBits(a, b >> 1, n - 1)), Select(b, a));
      SelectXTime(b, a);
    }
  }

  lemma SelectXTime(bit: bv16, a: Elem)
    ensures Select(bit, XTime(a)) == XTime(Select(bit, a))
  {
    XTimeZero();
    hide XTime;
  }

  lemma {:induction false} MulBitsZero(b: bv16, n: nat)
    ensures MulBits(ZERO, b, n) == ZERO
    decreases n
  {
    hide Add, XTime;
    if n > 0 {
      MulBitsZero(b >> 1, n - 1);
      XTimeZero();
      AddZero(ZERO);
    }
  }

  lemma MulBitsSelect(bit: bv16, a: Elem, b: bv16, n: nat)
    ensures MulBits(Select(bit, a), b, n) == Select(bit, MulBits(a, b, n))
  {
    hide MulBits;
    MulBitsZero(b, n);
  }

  /** Multiplying by `b` and multiplying by `c` are operators that commute. */
  lemma {:induction false} MulBitsSwap(a: Elem, b: bv16, n: nat, c: bv16, m: nat)
    ensures MulBits(MulBits(a, b, n), c, m) == MulBits(MulBits(a, c, m), b, n)
    decreases n
  {
    if n == 0 {
      MulBitsZero(c, m);
    } else {
      hide *;
      var h := MulBits(a, b >> 1, n - 1);
      MulBitsUnfold(a, b, n);
      MulBitsAddLeft(XTime(h), Select(b, a), c, m);
      MulBitsXTime(h, c, m);
      MulBitsSelect(b, a, c, m);
      MulBitsSwap(a, b >> 1, n - 1, c, m);
      MulBitsUnfold(MulBits(a, c, m), b, n);
    }
  }

  /** `b` has no bit set at or above position `n`. */
  predicate Fits(b: bv16, n: nat)
    decreases n
  {
    if n == 0 then b == 0 else Fits(b >> 1, n - 1)
  }

  lemma {:induction false} MulBitsOne(b: bv16, n: nat)
    requires Fits(b, n)
    ensures MulBits(ONE, b, n) == Word(b)
    decreases n
  {
    if n > 0 {
      MulBitsOne(b >> 1, n - 1);
      hide *;
      MulBitsUnfold(ONE, b, n);
      HornerStep(b);
    }
  }

  lemma ShiftHalf(b: bv16)
    ensures ShiftReduce(b >> 1) == (b >> 1) << 1
  {
    assert (b >> 1) >> 15 == 0;
  }

  lemma HornerStep(b: bv16)
    ensures Add(XTime(Word(b >> 1)), Select(b, ONE)) == Word(b)
  {
    hide ShiftReduce;
    ShiftHalf(b);
    assert b & 1 == 1 || b & 1 == 0;
    assert ((b >> 1) << 1) ^ (b & 1) == b;
  }

  lemma FitsAll(b: bv16)
    ensures Fits(b, 16)
  {
    assert b >> 1 >> 1 >> 1 >> 1 == b >> 4;
    assert (b >> 4) >> 1 >> 1 >> 1 >> 1 == b >> 8;
    assert (b >> 8) >> 1 >> 1 >> 1 >> 1 == b >> 12;
    assert (b >> 12) >> 1 >> 1 >> 1 >> 1 == 0;
    assert Fits(b >> 12, 4);
    assert Fits(b >> 8, 8);
    assert Fits(b >> 4, 12);
  }

  lemma OneMul(b: Elem)
    ensures Mul(ONE, b) == b
  {
    hide MulBits;
    FitsAll(b.bits);
    MulBitsOne(b.bits, 16);
  }

  // ----- commutative ring

  lemma MulComm(a: Elem, b: Elem)
    ensures Mul(a, b) == Mul(b, a)
  {
    hide MulBits;
    OneMul(a);
    OneMul(b);
    MulBitsSwap(ONE, a.bits, 16, b.bits, 16);
  }

  lemma MulAssoc(a: Elem, b: Elem, c: Elem)
    ensures Mul(Mul(a, b), c) == Mul(a, Mul(b, c))
  {
    hide *;
    MulSwap(b, a, c);
    MulComm(a, b);
    MulComm(a, Mul(b, c));
  }
  
  lemma MulSwap(a: Elem, b: Elem, c: Elem)
    ensures Mul(Mul(a, b), c) == Mul(Mul(a, c), b)
  {
    hide MulBits;
    MulBitsSwap(a, b.bits, 16, c.bits, 16);
  }

  lemma AddMul(a: Elem, b: Elem, c: Elem)
    ensures Mul(Add(a, b), c) == Add(Mul(a, c), Mul(b, c))
  {
    hide MulBits, Add;
    MulBitsAddLeft(a, b, c.bits, 16);
  }

  lemma MulAdd(a: Elem, b: Elem, c: Elem)
    ensures Mul(a, Add(b, c)) == Add(Mul(a, b), Mul(a, c))
  {
    hide *;
    MulComm(a, Add(b, c));
    AddMul(b, c, a);
    MulComm(a, b);
    MulComm(a, c);
  }

  lemma ZeroMul(a: Elem)
    ensures Mul(ZERO, a) == ZERO && Mul(a, ZERO) == ZERO
  {
    hide MulBits;
    MulBitsZero(a.bits, 16);
    MulComm(ZERO, a);
  }

  lemma MulOne(a: Elem)
    ensures Mul(a, ONE) == a
  {
    hide *;
    MulComm(a, ONE);
    OneMul(a);
  }
}
