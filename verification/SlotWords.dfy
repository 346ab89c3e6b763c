/** Slot numbers as field elements: the element of a slot has the binary digits of its number, so the sum of two slots
    is the exclusive or of the numbers. */
module SlotWords {
  import opened Gf16
  import opened Gf16Primitive
  import opened ByteWords
  import opened Gf16Field
  import opened Gf16Polynomials
  import opened ErasureCode
  import opened PowersOfTwo

  /** Binary digit e of a number. */
  predicate Digit(n: nat, e: nat) { n / Pow2(e) % 2 == 1 }

  /** The bits of w are the digits in which a and b differ, the low sixteen of them. */
  ghost predicate SpellsXor(w: Elem, a: nat, b: nat) {
    forall e: nat | e < 16 :: Bit(w.bits, e) <==> Digit(a, e) != Digit(b, e)
  }

  /** c is the field inverse of a xor b, and zero when that is zero. */
  ghost predicate InverseOfXor(c: Elem, a: nat, b: nat) {
    exists w :: SpellsXor(w, a, b) && if w == ZERO then c == ZERO else Mul(c, w) == ONE
  }

  // ----- digits

  lemma DigitZero(n: nat)
    ensures Digit(n, 0) == (n % 2 == 1)
  {
  }

  lemma DigitNext(n: nat, e: nat)
    ensures Digit(n, e + 1) == Digit(n / 2, e)
  {
    var p := Pow2(e);
    var q, r := n / (2 * p), n % (2 * p);
    assert n == 2 * (p * q) + r;
    assert n / 2 == p * q + r / 2 && r / 2 < p;
    QuotientUnique(n / 2, p, q, r / 2);
  }

  // ----- bytes

  predicate ByteBit(b: bv8, e: nat) { if e == 0 then b & 1 == 1 else ByteBit(b >> 1, e - 1) }

  lemma {:induction false} ByteDigit(b: bv8, e: nat)
    ensures ByteBit(b, e) == Digit(b as nat, e)
    decreases e
  {
    hide Digit;
    ByteHalf(b);
    if e == 0 {
      DigitZero(b as nat);
    } else {
      DigitNext(b as nat, e - 1);
      ByteDigit(b >> 1, e - 1);
    }
  }

  function Widen(b: bv8): bv16 { b as bv16 }

  lemma WidenLow(b: bv8)
    ensures Odd(Widen(b)) == (b & 1 == 1) && Down(Widen(b)) == Widen(b >> 1)
  {
  }

  lemma {:induction false} WidenBit(b: bv8, e: nat)
    ensures Bit(Widen(b), e) == ByteBit(b, e)
    decreases e
  {
    hide Odd, Down, Widen;
    WidenLow(b);
    if e > 0 { WidenBit(b >> 1, e - 1); }
  }

  lemma JoinParts(h: bv8, l: bv8)
    ensures Down4(Down4(Join(h, l).bits)) == Widen(h) && Mask(Join(h, l).bits, 0xFF) == Widen(l)
  {
  }

  lemma ByteMaskBit(e: nat)
    ensures Bit(0xFF, e) <==> e < 8
  {
    hide Bit;
    BitFour(0xFF, 0xF, e);
    if e >= 4 { BitFour(0xF, 0, e - 4); }
    if e >= 8 { ZeroBit(e - 8); }
  }

  lemma JoinBit(h: bv8, l: bv8, e: nat)
    ensures Bit(Join(h, l).bits, e) == if e < 8 then ByteBit(l, e) else ByteBit(h, e - 8)
  {
    hide Bit, Join, Widen, Mask, Down4, ByteBit;
    var v := Join(h, l).bits;
    JoinParts(h, l);
    if e < 8 {
      MaskBit(v, 0xFF, e);
      ByteMaskBit(e);
      WidenBit(l, e);
    } else {
      BitFour(v, Down4(v), e);
      BitFour(Down4(v), Down4(Down4(v)), e - 4);
      WidenBit(h, e - 8);
    }
  }

  // ----- slots

  /** The digits of p * h + l, for p a power of two: first those of l, then those of h. */
  lemma {:induction false} DigitsJoined(n: nat, h: nat, l: nat, p: nat, e: nat, k: nat)
    requires p == Pow2(k) && l < p && n == p * h + l
    ensures Digit(n, e) == if e < k then Digit(l, e) else Digit(h, e - k)
    decreases k
  {
    hide Digit, Pow2;
    Pow2Next(if k > 0 then k - 1 else 0);
    if k == 0 {
      assert n == h;
    } else {
      var half := Pow2(k - 1);
      HalfJoined(n, h, l, half);
      if e == 0 {
        DigitZero(n);
        DigitZero(l);
      } else {
        DigitsJoined(n / 2, h, l / 2, half, e - 1, k - 1);
        DigitNext(n, e - 1);
        DigitNext(l, e - 1);
      }
    }
  }

  lemma HalfJoined(n: nat, h: nat, l: nat, half: nat)
    requires n == 2 * half * h + l && l < 2 * half
    ensures n / 2 == half * h + l / 2 && n % 2 == l % 2 && l / 2 < half
  {
    assert n == 2 * (half * h) + l;
  }

  /** The element of a slot spells the slot's number. */
  lemma CoordDigits(slot: nat, e: nat)
    requires slot < 65536 && e < 16
    ensures Bit(Coord(slot).bits, e) == Digit(slot, e)
  {
    hide Bit, Digit, Join, ByteOf, ByteBit, Pow2;
    var h, l := slot / 256, slot % 256;
    JoinBit(ByteOf(h), ByteOf(l), e);
    ByteValue(h);
    ByteValue(l);
    Power8();
    DigitsJoined(slot, h, l, 256, e, 8);
    if e < 8 { ByteDigit(ByteOf(l), e); } else { ByteDigit(ByteOf(h), e - 8); }
  }

  lemma Power8()
    ensures Pow2(8) == 256
  {
    assert Pow2(4) == 16;
  }

  lemma SumSpellsXor(a: nat, b: nat)
    requires a < 65536 && b < 65536
    ensures SpellsXor(Add(Coord(a), Coord(b)), a, b)
  {
    hide Bit, Digit, Coord, Xor;
    forall e: nat | e < 16 ensures Bit(Add(Coord(a), Coord(b)).bits, e) <==> Digit(a, e) != Digit(b, e) {
      XorBit(Coord(a).bits, Coord(b).bits, e);
      CoordDigits(a, e);
      CoordDigits(b, e);
    }
  }

  /** The inverse of the sum of two slots is the inverse of the exclusive or of their numbers. */
  lemma SlotInverse(a: nat, b: nat)
    requires a < 65536 && b < 65536
    ensures InverseOfXor(Inv(Add(Coord(a), Coord(b))), a, b)
  {
    hide SpellsXor, Mul, Inv, Add, Coord;
    var w := Add(Coord(a), Coord(b));
    SumSpellsXor(a, b);
    if w == ZERO { InverseOfZero(); } else { InverseLaw(w); MulComm(w, Inv(w)); }
  }

  lemma InverseOfZero()
    ensures Inv(ZERO) == ZERO
  {
  }

  // ----- 32-bit slot numbers

  /** c is the coefficient for slots a and b, 32 bits wide: zero when a xor b does not fit the field. */
  ghost predicate XorCoefficient(c: Elem, a: nat, b: nat) {
    if a / 65536 == b / 65536 then InverseOfXor(c, a, b) else c == ZERO
  }

  lemma Power16()
    ensures Pow2(16) == 65536
  {
    Power8();
    assert Pow2(12) == 4096;
  }

  lemma LowDigits(n: nat, e: nat)
    requires e < 16
    ensures Digit(n % 65536, e) == Digit(n, e)
  {
    hide Digit, Pow2;
    Power16();
    DigitsJoined(n, n / 65536, n % 65536, 65536, e, 16);
  }

  lemma WideInverse(a: nat, b: nat)
    ensures InverseOfXor(Inv(Add(Coord(a % 65536), Coord(b % 65536))), a, b)
  {
    hide SpellsXor, Mul, Inv, Add, Coord;
    var c := Inv(Add(Coord(a % 65536), Coord(b % 65536)));
    SlotInverse(a % 65536, b % 65536);
    var w :| SpellsXor(w, a % 65536, b % 65536) && if w == ZERO then c == ZERO else Mul(c, w) == ONE;
    SameSpelling(w, a, b);
  }

  lemma SameSpelling(w: Elem, a: nat, b: nat)
    requires SpellsXor(w, a % 65536, b % 65536)
    ensures SpellsXor(w, a, b)
  {
    hide Bit, Digit;
    forall e: nat | e < 16 ensures Bit(w.bits, e) <==> Digit(a, e) != Digit(b, e) {
      LowDigits(a, e);
      LowDigits(b, e);
    }
  }

  // ----- parity units

  lemma WeightInverse(s: nat, d: nat)
    requires s < 65536 && d < 65536
    ensures InverseOfXor(Weight(s, d), s, d)
  {
    hide InverseOfXor, Inv, Coord;
    SlotInverse(s, d);
  }
}
