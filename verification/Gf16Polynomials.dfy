/** What the field operations are: words stand for polynomials of degree below 16, and products are reduced modulo
    x^16 + x^12 + x^3 + x + 1. */
module Gf16Polynomials {
  import opened Gf16
  import opened P = Gf2Polynomials

  const FIELD_POLYNOMIAL: Poly := {16, 12, 3, 1, 0}

  predicate Odd(v: bv16) { v & 1 == 1 }

  function Down(v: bv16): bv16 { v >> 1 }

  /** Bit e of a word. */
  predicate Bit(v: bv16, e: nat) { if e == 0 then Odd(v) else Bit(Down(v), e - 1) }

  /** The polynomial of an element: bit e is the coefficient of x^e. */
  ghost function ElemPoly(a: Elem): Poly { set e: nat | e < 16 && Bit(a.bits, e) }

  /** The n low bits of a word, highest first. */
  function Coefficients(v: bv16, n: nat): seq<bool>
    decreases n
  {
    if n == 0 then [] else Coefficients(Down(v), n - 1) + [Odd(v)]
  }

  // ----- bits of sums and masks

  lemma XorLow(a: bv16, b: bv16)
    ensures Odd(Xor(a, b)) == (Odd(a) != Odd(b)) && Down(Xor(a, b)) == Xor(Down(a), Down(b))
  {
  }

  lemma {:induction false} XorBit(a: bv16, b: bv16, e: nat)
    ensures Bit(Xor(a, b), e) == (Bit(a, e) != Bit(b, e))
    decreases e
  {
    hide Odd, Down, Xor;
    XorLow(a, b);
    if e > 0 { XorBit(Down(a), Down(b), e - 1); }
  }

  function Mask(a: bv16, b: bv16): bv16 { a & b }

  lemma MaskLow(a: bv16, b: bv16)
    ensures Odd(Mask(a, b)) == (Odd(a) && Odd(b)) && Down(Mask(a, b)) == Mask(Down(a), Down(b))
  {
  }

  lemma {:induction false} MaskBit(a: bv16, b: bv16, e: nat)
    ensures Bit(Mask(a, b), e) == (Bit(a, e) && Bit(b, e))
    decreases e
  {
    hide Odd, Down, Mask;
    MaskLow(a, b);
    if e > 0 { MaskBit(Down(a), Down(b), e - 1); }
  }

  lemma AddPoly(a: Elem, b: Elem)
    ensures ElemPoly(Add(a, b)) == Plus(ElemPoly(a), ElemPoly(b))
  {
    hide Bit, Xor;
    forall e: nat ensures Bit(Add(a, b).bits, e) == (Bit(a.bits, e) != Bit(b.bits, e)) {
      XorBit(a.bits, b.bits, e);
    }
  }

  // ----- multiplication by x

  function Down4(v: bv16): bv16 { v >> 4 }

  lemma DownFour(v: bv16)
    ensures Down(Down(Down(Down(v)))) == Down4(v)
  {
  }

  lemma BitTwo(v: bv16, e: nat)
    ensures Bit(v, e + 2) == Bit(Down(Down(v)), e)
    ensures Bit(v, 0) == Odd(v) && Bit(v, 1) == Odd(Down(v))
  {
    hide Odd, Down;
  }

  /** The four low bits, and the others as those of the rest of the word. */
  lemma BitFour(v: bv16, rest: bv16, e: nat)
    requires rest == Down4(v)
    ensures e >= 4 ==> Bit(v, e) == Bit(rest, e - 4)
    ensures Bit(v, 0) == Odd(v) && Bit(v, 1) == Odd(Down(v))
    ensures Bit(v, 2) == Odd(Down(Down(v))) && Bit(v, 3) == Odd(Down(Down(Down(v))))
  {
    hide Odd, Down, Down4, Bit;
    DownFour(v);
    BitTwo(v, 0);
    BitTwo(v, 1);
    BitTwo(Down(Down(v)), 0);
    if e >= 4 {
      BitTwo(v, e - 2);
      BitTwo(Down(Down(v)), e - 4);
    }
  }

  lemma {:induction false} ZeroBit(e: nat)
    ensures !Bit(0, e)
  {
    if e > 0 { ZeroBit(e - 1); }
  }

  /** 0x0805 is x^11 + x^2 + 1, what x^12 + x^3 + x keeps after one shift down. */
  lemma TailBit(e: nat)
    ensures Bit(0x0805, e) <==> e == 11 || e == 2 || e == 0
  {
    hide Bit;
    BitFour(0x0805, 0x0080, e);
    if e >= 4 { BitFour(0x0080, 0x0008, e - 4); }
    if e >= 8 { BitFour(0x0008, 0, e - 8); }
    if e >= 12 { ZeroBit(e - 12); }
  }

  lemma LowMaskBit(e: nat)
    ensures Bit(0x7FFF, e) <==> e < 15
  {
    hide Bit;
    BitFour(0x7FFF, 0x07FF, e);
    if e >= 4 { BitFour(0x07FF, 0x007F, e - 4); }
    if e >= 8 { BitFour(0x007F, 0x0007, e - 8); }
    if e >= 12 { BitFour(0x0007, 0, e - 12); }
    if e >= 16 { ZeroBit(e - 16); }
  }

  predicate Top(v: bv16) { v & 0x8000 != 0 }

  lemma TopBit(v: bv16)
    ensures Bit(v, 15) == Top(v)
  {
    hide Bit;
    var v4 := Down4(v);
    var v8 := Down4(v4);
    var v12 := Down4(v8);
    BitFour(v, v4, 15);
    BitFour(v4, v8, 11);
    BitFour(v8, v12, 7);
    BitFour(v12, Down4(v12), 3);
    TopIs(v);
  }

  lemma TopIs(v: bv16)
    ensures Odd(Down(Down(Down(Down4(Down4(Down4(v))))))) == Top(v)
  {
  }

  lemma ReduceCases(v: bv16)
    ensures ShiftReduce(v) == if Top(v) then (v << 1) ^ 0x100B else v << 1
  {
    if Top(v) {
      assert v >> 15 == 1;
    } else {
      assert v >> 15 == 0;
    }
  }

  lemma ReducedLow(v: bv16)
    ensures Odd((v << 1) ^ 0x100B)
  {
  }

  lemma ReducedRest(v: bv16)
    ensures Down((v << 1) ^ 0x100B) == Xor(Mask(v, 0x7FFF), 0x0805)
  {
  }

  lemma ShiftedLow(v: bv16)
    ensures !Odd(v << 1)
  {
  }

  lemma ShiftedRest(v: bv16)
    ensures Down(v << 1) == Xor(Mask(v, 0x7FFF), 0)
  {
  }

  lemma ShiftLow(v: bv16)
    ensures Odd(ShiftReduce(v)) == Top(v)
    ensures Down(ShiftReduce(v)) == Xor(Mask(v, 0x7FFF), if Top(v) then 0x0805 else 0)
  {
    hide *;
    ReduceCases(v);
    ReducedLow(v);
    ReducedRest(v);
    ShiftedLow(v);
    ShiftedRest(v);
  }

  lemma ShiftBit(v: bv16, e: nat)
    requires e < 16
    ensures Bit(ShiftReduce(v), e) ==
      ((e > 0 && Bit(v, e - 1)) != (Bit(v, 15) && (e == 12 || e == 3 || e == 1 || e == 0)))
  {
    hide Odd, Down, Xor, Mask, Top, ShiftReduce;
    ShiftLow(v);
    TopBit(v);
    if e > 0 {
      XorBit(Mask(v, 0x7FFF), if Top(v) then 0x0805 else 0, e - 1);
      MaskBit(v, 0x7FFF, e - 1);
      LowMaskBit(e - 1);
      TailBit(e - 1);
      ZeroBit(e - 1);
    }
  }

  lemma XTimePoly(a: Elem)
    ensures ElemPoly(XTime(a)) == Plus(Raise(ElemPoly(a), 1), P.Select(Bit(a.bits, 15), FIELD_POLYNOMIAL))
  {
    hide Bit, ShiftReduce;
    forall e: nat | e < 16 ensures Bit(XTime(a).bits, e) ==
      ((e > 0 && Bit(a.bits, e - 1)) != (Bit(a.bits, 15) && (e == 12 || e == 3 || e == 1 || e == 0)))
    {
      ShiftBit(a.bits, e);
    }
  }

  // ----- products

  lemma ZeroPoly()
    ensures ElemPoly(ZERO) == {}
  {
    forall e: nat ensures !Bit(0, e) { ZeroBit(e); }
  }

  lemma {:induction false} PartialProduct(a: Elem, b: bv16, n: nat)
    ensures Congruent(Product(Coefficients(b, n), ElemPoly(a)), ElemPoly(MulBits(a, b, n)), FIELD_POLYNOMIAL)
    decreases n
  {
    hide ElemPoly, Congruent, Bit, Odd, Down, Plus, Raise, Gf16.Select, P.Select, XTime, Add;
    if n == 0 {
      ZeroPoly();
      CongruentToItself({}, FIELD_POLYNOMIAL);
    } else {
      Shifts(b);
      var h, p := MulBits(a, b >> 1, n - 1), Product(Coefficients(Down(b), n - 1), ElemPoly(a));
      PartialProduct(a, Down(b), n - 1);
      XTimePoly(h);
      CongruentStep(p, ElemPoly(h), FIELD_POLYNOMIAL, Bit(h.bits, 15));
      SelectedPoly(b, a);
      AddPoly(XTime(h), Gf16.Select(b, a));
      CongruentPlus(Raise(p, 1), ElemPoly(XTime(h)), P.Select(Odd(b), ElemPoly(a)), FIELD_POLYNOMIAL);
      ProductSnoc(Coefficients(Down(b), n - 1), Odd(b), ElemPoly(a));
    }
  }

  lemma Shifts(b: bv16)
    ensures b >> 1 == Down(b)
  {
  }

  lemma SelectedPoly(b: bv16, a: Elem)
    ensures ElemPoly(Gf16.Select(b, a)) == P.Select(Odd(b), ElemPoly(a))
  {
    hide ElemPoly;
    ZeroPoly();
  }

  lemma {:induction false} CoefficientsPoly(v: bv16, n: nat, e: nat)
    ensures e in Product(Coefficients(v, n), {0}) <==> e < n && Bit(v, e)
    decreases n
  {
    hide Odd, Down, Product;
    if n == 0 {
      EmptyProduct({0});
    } else {
      var most := Coefficients(Down(v), n - 1);
      ProductSnoc(most, Odd(v), {0});
      if e > 0 { CoefficientsPoly(Down(v), n - 1, e - 1); }
      NextCoefficient(Product(most, {0}), Odd(v), e);
    }
  }

  lemma EmptyProduct(p: Poly)
    ensures Product([], p) == {}
  {
  }

  lemma NextCoefficient(p: Poly, on: bool, e: nat)
    ensures e in Plus(Raise(p, 1), P.Select(on, {0})) <==> if e == 0 then on else e - 1 in p
  {
  }

  /** The field product is the polynomial product, reduced modulo x^16 + x^12 + x^3 + x + 1; the sixteen coefficients
      of the second factor are its polynomial's. */
  lemma MulIsRemainder(a: Elem, b: Elem)
    ensures IsRemainder(ElemPoly(Mul(a, b)), Product(Coefficients(b.bits, 16), ElemPoly(a)), FIELD_POLYNOMIAL)
    ensures Product(Coefficients(b.bits, 16), {0}) == ElemPoly(b)
  {
    hide Congruent, Bit, Product, MulBits, Coefficients;
    PartialProduct(a, b.bits, 16);
    assert 16 in FIELD_POLYNOMIAL;
    forall e: nat ensures e in Product(Coefficients(b.bits, 16), {0}) <==> e in ElemPoly(b) {
      CoefficientsPoly(b.bits, 16, e);
    }
  }
}
