/** The generator x of GF(2^16) is primitive: its powers x^0 .. x^65534 are the nonzero elements, each once. */
module Gf16Primitive {
  import opened Gf16
  import opened ByteWords

  /** The bits of a product with the sixteen Horner steps written out, for evaluation on literals. */
  function MulSteps(a: bv16, b: bv16): bv16 {
    HornerFour(a, b, HornerFour(a, b >> 4, HornerFour(a, b >> 8, HornerFour(a, b >> 12, 0))))
  }

  function HornerFour(a: bv16, b: bv16, h: bv16): bv16 {
    HornerTwo(a, b, HornerTwo(a, b >> 2, h))
  }

  function HornerTwo(a: bv16, b: bv16, h: bv16): bv16 { Horner(a, b, Horner(a, b >> 1, h)) }

  function Horner(a: bv16, b: bv16, h: bv16): bv16 { Xor(ShiftReduce(h), LowTimes(b, a)) }

  /** a when b is odd, as a product so that it folds on literals. */
  function LowTimes(b: bv16, a: bv16): bv16 { (b & 1) * a }

  lemma LowTimesIs(b: bv16, a: bv16)
    ensures LowTimes(b, a) == if b & 1 == 1 then a else 0
  {
    assert b & 1 == 0 || b & 1 == 1;
  }

  lemma HornerIsStep(a: bv16, b: bv16, h: bv16)
    ensures Word(Horner(a, b, h)) == Add(XTime(Word(h)), Select(b, Word(a)))
  {
    hide ShiftReduce, Xor, LowTimes;
    LowTimesIs(b, a);
  }

  lemma MulBitsHorner(a: bv16, b: bv16, c: bv16, h: bv16, n: nat)
    requires c == b >> 1 && MulBits(Word(a), c, n) == Word(h)
    ensures MulBits(Word(a), b, n + 1) == Word(Horner(a, b, h))
  {
    hide *;
    MulBitsUnfold(Word(a), b, n + 1);
    HornerIsStep(a, b, h);
  }

  lemma MulBitsTwo(a: bv16, b: bv16, h: bv16, n: nat)
    requires MulBits(Word(a), b >> 2, n) == Word(h)
    ensures MulBits(Word(a), b, n + 2) == Word(HornerTwo(a, b, h))
  {
    hide Horner, MulBits;
    MulBitsHorner(a, b >> 1, b >> 2, h, n);
    MulBitsHorner(a, b, b >> 1, Horner(a, b >> 1, h), n + 1);
  }

  lemma MulBitsFour(a: bv16, b: bv16, h: bv16, n: nat)
    requires MulBits(Word(a), b >> 4, n) == Word(h)
    ensures MulBits(Word(a), b, n + 4) == Word(HornerFour(a, b, h))
  {
    hide HornerTwo, MulBits;
    MulBitsTwo(a, b >> 2, h, n);
    MulBitsTwo(a, b, HornerTwo(a, b >> 2, h), n + 2);
  }

  lemma MulBitsNone(a: Elem, b: bv16)
    ensures MulBits(a, b, 0) == Word(0)
  {
  }

  lemma MulIsMulSteps(a: bv16, b: bv16)
    ensures Mul(Word(a), Word(b)) == Word(MulSteps(a, b))
  {
    hide HornerFour, MulBits;
    var h3 := HornerFour(a, b >> 12, 0);
    var h2 := HornerFour(a, b >> 8, h3);
    var h1 := HornerFour(a, b >> 4, h2);
    MulBitsNone(Word(a), (b >> 12) >> 4);
    MulBitsFour(a, b >> 12, 0, 0);
    MulBitsFour(a, b >> 8, h3, 4);
    MulBitsFour(a, b >> 4, h2, 8);
    MulBitsFour(a, b, h1, 12);
  }

  // ----- powers of the generator

  /** The n-th power of x: the value of the table loops' variable after n steps. */
  function Pow(n: nat): Elem { if n == 0 then ONE else XTime(Pow(n - 1)) }

  lemma PowZero()
    ensures Pow(0) == ONE
  {
  }

  lemma PowUnfold(n: nat)
    ensures Pow(n + 1) == XTime(Pow(n))
  {
  }

  lemma {:induction false} PowAdd(m: nat, n: nat)
    ensures Mul(Pow(m), Pow(n)) == Pow(m + n)
  {
    hide *;
    if m == 0 {
      PowZero();
      OneMul(Pow(n));
    } else {
      PowAdd(m - 1, n);
      XTimeMul(Pow(m - 1), Pow(n));
      PowUnfold(m - 1);
      PowUnfold(m - 1 + n);
    }
  }

  lemma XTimeMul(a: Elem, b: Elem)
    ensures Mul(XTime(a), b) == XTime(Mul(a, b))
  {
    hide MulBits, XTime;
    MulBitsXTime(a, b.bits, 16);
  }

  /** One evaluated product, as a step between powers. */
  lemma PowStep(m: nat, a: bv16, n: nat, b: bv16, c: bv16)
    requires Pow(m) == Word(a) && Pow(n) == Word(b) && MulSteps(a, b) == c
    ensures Pow(m + n) == Word(c)
  {
    hide *;
    MulIsMulSteps(a, b);
    PowAdd(m, n);
  }

  lemma PowSmall()
    ensures Pow(1) == Word(2) && Pow(3) == Word(8) && Pow(5) == Word(0x20) && Pow(15) == Word(0x8000) &&
        Pow(16) == Word(0x100B)
  {
    assert Pow(4) == Word(0x10);
    assert Pow(8) == Word(0x100);
    assert Pow(12) == Word(0x1000);
  }

  lemma PowFrobenius()
    requires Pow(16) == Word(0x100B)
    ensures Pow(65536) == Word(2)
  {
    hide Pow;
    PowStep(16, 0x100B, 16, 0x100B, 0x1BFE);
    PowStep(32, 0x1BFE, 32, 0x1BFE, 0x5C24);
    PowStep(64, 0x5C24, 64, 0x5C24, 0xE647);
    PowStep(128, 0xE647, 128, 0xE647, 0x0B2F);
    PowStep(256, 0x0B2F, 256, 0x0B2F, 0x169E);
    PowStep(512, 0x169E, 512, 0x169E, 0x0A78);
    PowStep(1024, 0x0A78, 1024, 0x0A78, 0x1780);
    PowStep(2048, 0x1780, 2048, 0x1780, 0x1B27);
    PowStep(4096, 0x1B27, 4096, 0x1B27, 0x0D65);
    PowStep(8192, 0x0D65, 8192, 0x0D65, 0x564D);
    PowStep(16384, 0x564D, 16384, 0x564D, 0xF0C6);
    PowStep(32768, 0xF0C6, 32768, 0xF0C6, 0x0002);
  }

  lemma Pow255And3855()
    requires Pow(15) == Word(0x8000)
    ensures Pow(255) == Word(0x8D92)
    ensures Pow(3855) == Word(0x4D78)
  {
    hide Pow;
    PowStep(15, 0x8000, 15, 0x8000, 0x8EFA);
    PowStep(30, 0x8EFA, 30, 0x8EFA, 0xC9C5);
    PowStep(60, 0xC9C5, 60, 0xC9C5, 0x27B7);
    PowStep(120, 0x27B7, 120, 0x27B7, 0x6B65);
    PowStep(15, 0x8000, 240, 0x6B65, 0x8D92);
    PowStep(240, 0x6B65, 240, 0x6B65, 0xC38D);
    PowStep(480, 0xC38D, 480, 0xC38D, 0x3537);
    PowStep(960, 0x3537, 960, 0x3537, 0x70F2);
    PowStep(1920, 0x70F2, 1920, 0x70F2, 0x8BE8);
    PowStep(15, 0x8000, 3840, 0x8BE8, 0x4D78);
  }

  lemma Pow13107()
    requires Pow(3) == Word(0x0008)
    ensures Pow(13107) == Word(0x1CE8)
  {
    hide Pow;
    PowStep(3, 0x0008, 3, 0x0008, 0x0040);
    PowStep(6, 0x0040, 6, 0x0040, 0x1000);
    PowStep(12, 0x1000, 12, 0x1000, 0x1BBB);
    PowStep(24, 0x1BBB, 24, 0x1BBB, 0x4C35);
    PowStep(3, 0x0008, 48, 0x4C35, 0x41BE);
    PowStep(51, 0x41BE, 51, 0x41BE, 0xFEE4);
    PowStep(102, 0xFEE4, 102, 0xFEE4, 0x167D);
    PowStep(204, 0x167D, 204, 0x167D, 0x5E7D);
    PowStep(408, 0x5E7D, 408, 0x5E7D, 0xB72A);
    PowStep(816, 0xB72A, 816, 0xB72A, 0xBF75);
    PowStep(1632, 0xBF75, 1632, 0xBF75, 0xECCC);
    PowStep(3264, 0xECCC, 3264, 0xECCC, 0x49AA);
    PowStep(6528, 0x49AA, 6528, 0x49AA, 0xBD18);
    PowStep(51, 0x41BE, 13056, 0xBD18, 0x1CE8);
  }

  lemma Pow21845()
    requires Pow(5) == Word(0x0020)
    ensures Pow(21845) == Word(0x015E)
  {
    hide Pow;
    PowStep(5, 0x0020, 5, 0x0020, 0x0400);
    PowStep(10, 0x0400, 10, 0x0400, 0x10BB);
    PowStep(20, 0x10BB, 20, 0x10BB, 0x5EFE);
    PowStep(40, 0x5EFE, 40, 0x5EFE, 0xF72F);
    PowStep(5, 0x0020, 80, 0xF72F, 0x1539);
    PowStep(85, 0x1539, 85, 0x1539, 0x1E4A);
    PowStep(170, 0x1E4A, 170, 0x1E4A, 0x1984);
    PowStep(340, 0x1984, 340, 0x1984, 0x094C);
    PowStep(680, 0x094C, 680, 0x094C, 0x42B7);
    PowStep(1360, 0x42B7, 1360, 0x42B7, 0xAE82);
    PowStep(2720, 0xAE82, 2720, 0xAE82, 0xB269);
    PowStep(5440, 0xB269, 5440, 0xB269, 0xAFC0);
    PowStep(10880, 0xAFC0, 10880, 0xAFC0, 0xB266);
    PowStep(85, 0x1539, 21760, 0xB266, 0x015E);
  }

  // ----- the order of x is 65535

  const ORDER: nat := 65535

  lemma ShiftReduceInjective(a: bv16, b: bv16)
    requires ShiftReduce(a) == ShiftReduce(b)
    ensures a == b
  {
  }

  lemma XTimeInjective(a: Elem, b: Elem)
    requires XTime(a) == XTime(b)
    ensures a == b
  {
    hide ShiftReduce;
    ShiftReduceInjective(a.bits, b.bits);
  }

  lemma PowOrder()
    ensures Pow(ORDER) == ONE
  {
    PowSmall();
    PowFrobenius();
    hide Pow;
    PowUnfold(ORDER);
    XTimeInjective(Pow(ORDER), ONE);
  }

  lemma PowProperDivisors()
    ensures Pow(ORDER / 3) != ONE && Pow(ORDER / 5) != ONE && Pow(ORDER / 17) != ONE && Pow(ORDER / 257) != ONE
  {
    PowSmall();
    Pow255And3855();
    Pow13107();
    Pow21845();
  }

  /** `d` is a period of the powers of x. */
  predicate Period(d: nat) { Pow(d) == ONE }

  lemma {:induction false} PeriodMultiple(d: nat, k: nat)
    requires Period(d)
    ensures Period(k * d)
  {
    if k > 0 {
      PeriodMultiple(d, k - 1);
      PowAdd((k - 1) * d, d);
      OneMul(ONE);
      assert k * d == (k - 1) * d + d;
    }
  }

  lemma PeriodDifference(m: nat, d: nat)
    requires Period(m) && Period(d) && d <= m
    ensures Period(m - d)
  {
    hide Pow, Mul;
    PowAdd(d, m - d);
    OneMul(Pow(m - d));
  }

  ghost predicate LeastPeriod(d: nat) {
    d > 0 && Period(d) && forall e: nat | 0 < e < d :: !Period(e)
  }

  lemma {:induction false} LeastPeriodExists(d: nat) returns (l: nat)
    requires d > 0 && Period(d)
    ensures l <= d && LeastPeriod(l)
  {
    if e: nat :| 0 < e < d && Period(e) {
      l := LeastPeriodExists(e);
    } else {
      l := d;
    }
  }

  lemma LeastPeriodDivides(l: nat, m: nat)
    requires LeastPeriod(l) && Period(m)
    ensures m % l == 0
  {
    var q, r := m / l, m % l;
    PeriodMultiple(l, q);
    assert m == q * l + r;
    assert q * l >= 0;
    PeriodDifference(m, q * l);
  }
  
  // ----- divisors of ORDER = 3 * 5 * 17 * 257

  /** An inverse of `r` modulo the prime `p`. */

  lemma InverseModulo(p: nat, r: nat) returns (u: nat, w: nat)
    requires p in {3, 5, 17} && 0 < r < p
    ensures u * r == p * w + 1
  {
    if p == 3 {
      u, w := r, r - 1;
    } else if p == 5 {
      u, w := if r == 2 then 3 else if r == 3 then 2 else r, if r == 1 then 0 else if r == 4 then 3 else 1;
    } else if r < 9 {
      u, w := [0, 1, 9, 6, 13, 7, 3, 5, 15][r], [0, 0, 1, 1, 3, 2, 1, 2, 7][r];
    } else {
      u, w := [2, 12, 14, 10, 4, 11, 8, 16][r - 9], [1, 7, 9, 7, 3, 9, 7, 15][r - 9];
    }
  }

  lemma PrimeFactor(p: nat, a: nat, b: nat, m: nat) returns (c: nat)
    requires p in {3, 5, 17}
    requires a * b == p * m && b % p != 0
    ensures a == p * c && c * b == m
  {
    var k, r := b / p, b % p;
    var u, w := InverseModulo(p, r);
    UnitMultiple(p, b, k, r, u, w);
    CancelFactor(p, a, b, m, u, u * k + w);
    ExactQuotient(p, a, b, m, m * u - a * (u * k + w));
    c := m * u - a * (u * k + w);
  }

  lemma UnitMultiple(p: nat, b: nat, k: nat, r: nat, u: nat, w: nat)
    requires b == p * k + r && u * r == p * w + 1
    ensures u * b == p * (u * k + w) + 1
  {
    assert u * b == u * (p * k) + u * r;
    assert u * (p * k) == p * (u * k);
  }

  lemma ExactQuotient(p: nat, a: nat, b: nat, m: nat, c: int)
    requires p > 0 && a == p * c && a * b == p * m
    ensures c >= 0 && c * b == m
  {
    assert p * (c * b) == p * m;
  }

  lemma CancelFactor(p: nat, a: nat, b: nat, m: nat, u: nat, v: nat)
    requires a * b == p * m && u * b == p * v + 1
    ensures a == p * (m * u - a * v)
  {
    calc {
      a;
      a * (p * v + 1) - a * (p * v);
      a * (u * b) - a * (p * v);
      { assert a * (u * b) == (a * b) * u; }
      (p * m) * u - a * (p * v);
      { assert (p * m) * u == p * (m * u); assert a * (p * v) == p * (a * v); }
      p * (m * u) - p * (a * v);
    }
  }

  lemma SmallDivisor257(a: nat, b: nat)
    requires a <= 16 && a * b == 257
    ensures a == 1
  {
    if a == 2 {} else if a == 3 {} else if a == 4 {} else if a == 5 {} else if a == 6 {} else if a == 7 {}
    else if a == 8 {} else if a == 9 {} else if a == 10 {} else if a == 11 {} else if a == 12 {} else if a == 13 {}
    else if a == 14 {} else if a == 15 {} else if a == 16 {} else {}
  }

  lemma Prime257(a: nat, b: nat)
    requires a * b == 257
    ensures a == 1 || b == 1
  {
    if a <= 16 {
      SmallDivisor257(a, b);
    } else {
      assert b <= 16;
      SmallDivisor257(b, a);
    }
  }

  /** Every proper divisor of ORDER divides ORDER / p for one of its four primes p. */
  lemma ProperDivisor(l: nat, q: nat) returns (k: nat)
    requires l * q == ORDER && q != 1
    ensures k * l in {ORDER / 3, ORDER / 5, ORDER / 17, ORDER / 257}
  {
    if q % 3 == 0 {
      k := q / 3;
      ScaleDown(3, l, q, k, 21845);
      return;
    }
    var l3 := PrimeFactor(3, l, q, 21845);
    if q % 5 == 0 {
      k := q / 5;
      ScaleDown(5, l, q, k, 13107);
      return;
    }
    var l5 := PrimeFactor(5, l3, q, 4369);
    if q % 17 == 0 {
      k := q / 17;
      ScaleDown(17, l, q, k, 3855);
      return;
    }
    var l17 := PrimeFactor(17, l5, q, 257);
    Prime257(l17, q);
    k := 1;
  }

  lemma ScaleDown(p: nat, l: nat, q: nat, k: nat, m: nat)
    requires q == p * k && l * q == p * m && p > 0
    ensures k * l == m
  {
    assert p * (k * l) == p * m;
  }

  /** x is primitive: no positive power of x below the 65535th is one. */
  lemma LeastPeriodIsOrder(l: nat)
    requires LeastPeriod(l)
    ensures l == ORDER
  {
    PowOrder();
    PowProperDivisors();
    LeastPeriodDivides(l, ORDER);
    hide Pow;
    var q := ORDER / l;
    assert l * q == ORDER;
    if q != 1 {
      var k := ProperDivisor(l, q);
      PeriodMultiple(l, k);
    }
  }

  /** The powers x^0 .. x^65534 are pairwise different. */
  lemma PowDistinct(i: nat, j: nat)
    requires i < j < ORDER
    ensures Pow(i) != Pow(j)
  {
    hide *;
    if Pow(i) == Pow(j) {
      PowOrder();
      PowAdd(i, ORDER - i);
      PowAdd(j, ORDER - i);
      PowAdd(j - i, ORDER);
      MulOne(Pow(j - i));
      PeriodIsOrder(j - i);
    }
  }

  lemma PeriodIsOrder(d: nat)
    requires 0 < d && Pow(d) == ONE
    ensures d >= ORDER
  {
    hide Pow;
    var l := LeastPeriodExists(d);
    LeastPeriodIsOrder(l);
  }

  lemma {:induction false} PowNonzero(n: nat)
    ensures Pow(n) != ZERO
  {
    if n > 0 {
      PowNonzero(n - 1);
      hide Pow;
      PowUnfold(n - 1);
      XTimeNonzero(Pow(n - 1));
    }
  }

  lemma XTimeNonzero(a: Elem)
    ensures XTime(a) == ZERO ==> a == ZERO
  {
    XTimeZero();
    if XTime(a) == ZERO {
      XTimeInjective(a, ZERO);
    }
  }

  // ----- every nonzero element is a power

  /** An element as its two bytes. */
  function High(a: Elem): bv8 { (a.bits >> 8) as bv8 }

  function Low(a: Elem): bv8 { (a.bits & 0xFF) as bv8 }

  function Join(h: bv8, l: bv8): Elem { Word((h as bv16 << 8) | (l as bv16)) }

  lemma SplitJoin(h: bv8, l: bv8)
    ensures High(Join(h, l)) == h && Low(Join(h, l)) == l
  {
  }

  lemma JoinSplit(a: Elem)
    ensures Join(High(a), Low(a)) == a
  {
  }

  /** The number whose binary digits are the bits of `a`; the table index of the element. */
  function Index(a: Elem): nat { 256 * (High(a) as nat) + (Low(a) as nat) }

  /** The element whose bits are the binary digits of `n`. */
  function FromIndex(n: nat): Elem
    requires n < 65536
  {
    Join(ByteOf(n / 256), ByteOf(n % 256))
  }

  lemma IndexFromIndex(n: nat)
    requires n < 65536
    ensures Index(FromIndex(n)) == n
  {
    hide High, Low, Join, ByteOf;
    SplitJoin(ByteOf(n / 256), ByteOf(n % 256));
    ByteValue(n / 256);
    ByteValue(n % 256);
  }

  lemma IndexInjective(a: Elem, b: Elem)
    requires Index(a) == Index(b)
    ensures a == b
  {
    hide High, Low, Join;
    ByteInjective(High(a), High(b));
    ByteInjective(Low(a), Low(b));
    JoinSplit(a);
    JoinSplit(b);
  }

  lemma IndexRange(a: Elem)
    ensures Index(a) <= ORDER
    ensures Index(a) == 0 <==> a == ZERO
  {
    assert Index(ZERO) == 0;
    if Index(a) == 0 {
      IndexInjective(a, ZERO);
    }
  }

  ghost function Powers(n: nat): set<nat> { set i: nat | i < n :: Index(Pow(i)) }

  ghost function UpTo(n: nat): set<nat> { if n == 0 then {} else UpTo(n - 1) + {n} }

  lemma {:induction false} UpToSize(n: nat)
    ensures forall i :: i in UpTo(n) <==> 0 < i <= n
    ensures |UpTo(n)| == n
  {
    if n > 0 {
      UpToSize(n - 1);
    }
  }

  lemma {:induction false} PowersSize(n: nat)
    requires n <= ORDER
    ensures |Powers(n)| == n
  {
    hide Pow, Index;
    if n > 0 {
      PowersSize(n - 1);
      assert Powers(n) == Powers(n - 1) + {Index(Pow(n - 1))};
      if Index(Pow(n - 1)) in Powers(n - 1) {
        var i: nat :| i < n - 1 && Index(Pow(i)) == Index(Pow(n - 1));
        IndexInjective(Pow(i), Pow(n - 1));
        PowDistinct(i, n - 1);
      }
    } else {
      assert Powers(0) == {};
    }
  }

  lemma {:induction false} SubsetSize(a: set<nat>, b: set<nat>)
    requires a <= b
    ensures |a| <= |b|
    ensures |a| == |b| ==> a == b
  {
    if a != {} {
      var e :| e in a;
      SubsetSize(a - {e}, b - {e});
      assert a == (a - {e}) + {e};
      assert b == (b - {e}) + {e};
    }
  }

  /** Every nonzero element is the power of x for exactly one exponent below 65535. */
  lemma LogExists(a: Elem) returns (i: nat)
    requires a != ZERO
    ensures i < ORDER && Pow(i) == a
    ensures forall j: nat | j < ORDER && Pow(j) == a :: j == i
  {
    hide Pow, Index;
    PowersSize(ORDER);
    UpToSize(ORDER);
    forall i: nat | i < ORDER ensures Index(Pow(i)) in UpTo(ORDER) {
      PowNonzero(i);
      IndexRange(Pow(i));
    }
    SubsetSize(Powers(ORDER), UpTo(ORDER));
    IndexRange(a);
    assert Index(a) in Powers(ORDER);
    i :| i < ORDER && Index(Pow(i)) == Index(a);
    IndexInjective(Pow(i), a);
    forall j: nat | j < ORDER && Pow(j) == a ensures j == i {
      if j < i { PowDistinct(j, i); } else if i < j { PowDistinct(i, j); }
    }
  }
}
