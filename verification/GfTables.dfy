/** The logarithm tables: GfField of src/recovery/rs16.cpp and _gf16_tables of tools/scan_rr.py. */
module GfTables {
  import opened Gf16
  import opened Gf16Primitive
  import opened Gf16Field

  lemma IndexDistinct(a: Elem, b: Elem)
    requires a != b
    ensures Index(a) != Index(b)
  {
    hide Index;
    if Index(a) == Index(b) { IndexInjective(a, b); }
  }

  /** The slot of a power is free of all earlier powers. */
  lemma PowSlotFresh(k: nat, i: nat)
    requires k < i < ORDER
    ensures Index(Pow(k)) != Index(Pow(i))
  {
    hide Pow;
    PowDistinct(k, i);
    IndexDistinct(Pow(k), Pow(i));
  }

  lemma PowSlot(i: nat)
    ensures 0 < Index(Pow(i)) <= ORDER
  {
    hide Pow;
    PowNonzero(i);
    IndexRange(Pow(i));
  }

  /** The production tables. */
  class GfField {
    const power: array<Elem>
    const exponent: array<nat>

    /** Every power is at its exponent, and every exponent at the index of its power. */
    ghost predicate Valid()
      reads power, exponent
    {
      && power.Length == ORDER
      && exponent.Length == ORDER + 1
      && (forall i: nat | i < ORDER :: power[i] == Pow(i))
      && (forall a: Elem | a != ZERO :: Index(a) <= ORDER && exponent[Index(a)] == Log(a))
    }

    constructor ()
      ensures Valid() && fresh(power) && fresh(exponent)
    {
      hide Index, Pow, XTime;
      power := new Elem[ORDER];
      exponent := new nat[ORDER + 1];
      new;
      var v := ONE;
      var i := 0;
      PowZero();
      while i < ORDER
        invariant 0 <= i <= ORDER && v == Pow(i)
        invariant forall k: nat | k < i :: power[k] == Pow(k)
        invariant forall k: nat | k < i :: Index(Pow(k)) <= ORDER && exponent[Index(Pow(k))] == k
      {
        PowSlot(i);
        exponent[Index(v)] := i;
        power[i] := v;
        forall k: nat | k < i ensures Index(Pow(k)) != Index(Pow(i)) {
          PowSlotFresh(k, i);
        }
        PowUnfold(i);
        v := XTime(v);
        i := i + 1;
      }
      exponent[0] := 0;
      forall k: nat | k < ORDER ensures Index(Pow(k)) != 0 {
        PowSlot(k);
      }
      forall a: Elem | a != ZERO ensures Index(a) <= ORDER && exponent[Index(a)] == Log(a) {
        assert Pow(Log(a)) == a;
      }
    }

    /** gf_mul: the product read from the tables is the field product. */
    function GfMul(a: Elem, b: Elem): (r: Elem)
      requires Valid()
      reads power, exponent
      ensures r == Mul(a, b)
    {
      TableProduct(a, b);
      if a == ZERO || b == ZERO then ZERO
      else
        var sum := exponent[Index(a)] + exponent[Index(b)];
        power[if sum >= ORDER then sum - ORDER else sum]
    }

    /** gf_inv: the inverse read from the tables is the field inverse. */
    function GfInv(a: Elem): (r: Elem)
      requires Valid()
      reads power, exponent
      ensures r == Inv(a)
    {
      TableInverse(a);
      if a == ZERO then ZERO
      else
        var e := exponent[Index(a)];
        if e == 0 then ONE else power[ORDER - e]
    }
  }

  lemma PowReduce(i: nat)
    ensures Pow(i + ORDER) == Pow(i)
  {
    PowOrder();
    hide Pow;
    PowAdd(i, ORDER);
    MulOne(Pow(i));
  }

  lemma TableProduct(a: Elem, b: Elem)
    ensures a == ZERO || b == ZERO ==> Mul(a, b) == ZERO
    ensures a != ZERO && b != ZERO ==>
      var sum := Log(a) + Log(b);
      Mul(a, b) == Pow(sum) && (sum >= ORDER ==> Mul(a, b) == Pow(sum - ORDER))
  {
    hide Pow, Mul;
    ZeroMul(a);
    ZeroMul(b);
    if a != ZERO && b != ZERO {
      var sum := Log(a) + Log(b);
      PowAdd(Log(a), Log(b));
      if sum >= ORDER { PowReduce(sum - ORDER); }
    }
  }

  lemma TableInverse(a: Elem)
    ensures a != ZERO && Log(a) == 0 ==> Inv(a) == ONE
  {
    PowOrder();
  }

  // ----- tools/scan_rr.py

  /** One step of the Python loop, which shifts into a seventeenth bit and subtracts the whole polynomial. */
  function PyStep(x: Elem): Elem {
    var y := (x.bits as bv32) << 1;
    Word((if y & 0x10000 != 0 then y ^ 0x1100B else y) as bv16)
  }

  lemma PyStepIsXTime(a: Elem)
    ensures PyStep(a) == XTime(a)
  {
    var v := a.bits;
    if v & 0x8000 == 0 {
      assert v >> 15 == 0;
      assert (v as bv32 << 1) & 0x10000 == 0;
      assert v as bv32 << 1 == (v << 1) as bv32;
    } else {
      assert v >> 15 == 1;
      assert (v as bv32 << 1) & 0x10000 != 0;
      assert (v as bv32 << 1) ^ 0x1100B == ((v << 1) ^ 0x100B) as bv32;
    }
  }

  const PY_EXP: nat := 131072

  ghost predicate PyTables(exp: seq<Elem>, log: seq<nat>) {
    && |exp| == PY_EXP
    && |log| == ORDER + 1
    && (forall i: nat | i < PY_EXP :: exp[i] == Pow(i))
    && (forall a: Elem | a != ZERO :: Index(a) <= ORDER && log[Index(a)] == Log(a))
  }

  method PyGf16Tables() returns (exp: array<Elem>, log: array<nat>)
    ensures PyTables(exp[..], log[..])
  {
    hide Index, Pow, XTime, PyStep;
    exp := new Elem[PY_EXP];
    log := new nat[ORDER + 1];
    var x := ONE;
    var i := 0;
    PowZero();
    while i < ORDER
      invariant 0 <= i <= ORDER && x == Pow(i)
      invariant forall k: nat | k < i :: exp[k] == Pow(k)
      invariant forall k: nat | k < i :: Index(Pow(k)) <= ORDER && log[Index(Pow(k))] == k
    {
      PowSlot(i);
      exp[i] := x;
      log[Index(x)] := i;
      forall k: nat | k < i ensures Index(Pow(k)) != Index(Pow(i)) {
        PowSlotFresh(k, i);
      }
      PowUnfold(i);
      PyStepIsXTime(Pow(i));
      x := PyStep(x);
      i := i + 1;
    }
    while i < PY_EXP
      invariant ORDER <= i <= PY_EXP
      invariant forall k: nat | k < ORDER :: Index(Pow(k)) <= ORDER && log[Index(Pow(k))] == k
      invariant forall k: nat | k < i :: exp[k] == Pow(k)
    {
      PowReduce(i - ORDER);
      exp[i] := exp[i - ORDER];
      i := i + 1;
    }
    forall a: Elem | a != ZERO ensures Index(a) <= ORDER && log[Index(a)] == Log(a) {
      assert Pow(Log(a)) == a;
    }
  }

  function PyMul(exp: seq<Elem>, log: seq<nat>, a: Elem, b: Elem): (r: Elem)
    requires PyTables(exp, log)
    ensures r == Mul(a, b)
  {
    TableProduct(a, b);
    if a == ZERO || b == ZERO then ZERO else exp[log[Index(a)] + log[Index(b)]]
  }

  function PyInv(exp: seq<Elem>, log: seq<nat>, a: Elem): (r: Elem)
    requires PyTables(exp, log)
    requires a != ZERO
    ensures r == Inv(a)
  {
    exp[ORDER - log[Index(a)]]
  }
}
