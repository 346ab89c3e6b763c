/** Logarithms, inverses and the remaining field laws. */
module Gf16Field {
  import opened Gf16
  import opened Gf16Primitive

  /** The discrete logarithm to base x of a nonzero element. */
  ghost function Log(a: Elem): (i: nat)
    requires a != ZERO
    ensures i < ORDER && Pow(i) == a
  {
    LogChoice(a);
    var i: nat :| i < ORDER && Pow(i) == a;
    i
  }

  lemma LogChoice(a: Elem)
    requires a != ZERO
    ensures exists i: nat :: i < ORDER && Pow(i) == a
  {
    var i := LogExists(a);
  }

  /** The multiplicative inverse, with the source's convention that zero maps to zero. */
  ghost function Inv(a: Elem): Elem {
    if a == ZERO then ZERO else Pow(ORDER - Log(a))
  }

  lemma InverseLaw(a: Elem)
    requires a != ZERO
    ensures Mul(a, Inv(a)) == ONE && Inv(a) != ZERO
  {
    PowOrder();
    hide Pow, Mul;
    PowAdd(Log(a), ORDER - Log(a));
    PowNonzero(ORDER - Log(a));
  }

  lemma NoZeroDivisors(a: Elem, b: Elem)
    requires Mul(a, b) == ZERO && a != ZERO
    ensures b == ZERO
  {
    hide *;
    InverseLaw(a);
    MulComm(a, Inv(a));
    MulAssoc(Inv(a), a, b);
    OneMul(b);
    ZeroMul(Inv(a));
  }

  lemma MulCancel(a: Elem, b: Elem, c: Elem)
    requires a != ZERO && Mul(a, b) == Mul(a, c)
    ensures b == c
  {
    hide *;
    MulAdd(a, b, c);
    AddSelf(Mul(a, c));
    NoZeroDivisors(a, Add(b, c));
    AddEqualsZero(b, c);
  }

  lemma AddEqualsZero(a: Elem, b: Elem)
    ensures Add(a, b) == ZERO <==> a == b
  {
  }
}
