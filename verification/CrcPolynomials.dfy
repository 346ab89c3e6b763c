/** What the checksums are: remainders of the message polynomial, as the standards define CRC-32 and CRC-64/XZ. */
module CrcPolynomials {
  import opened Crc
  import opened CrcTables
  import opened Gf2Polynomials
  import opened PowersOfTwo
  import opened BinaryTerms

  /** The polynomial that the low w bits of a register stand for, the lowest bit its highest coefficient. */
  ghost function RegPoly(c: Reg, w: nat): Poly
    requires w <= WIDTH
  {
    set e: nat | e < w && Coefficient(c, w, e)
  }

  predicate Coefficient(c: Reg, w: nat, e: nat)
    requires e < w <= WIDTH
  {
    c[w - 1 - e]
  }

  /** A message as one polynomial: the first bit is the highest coefficient, and each byte goes lowest bit first. */
  ghost function Message(data: seq<Byte>): Poly {
    set e: nat | e < 8 * |data| && data[|data| - 1 - e / 8][7 - e % 8]
  }

  ghost function Generator(poly: Reg, w: nat): Poly
    requires w <= WIDTH
  {
    RegPoly(poly, w) + {w}
  }

  /** All coefficients below x^w. */
  ghost function Ones(w: nat): (p: Poly)
    ensures forall e: nat :: e in p <==> e < w
  {
    if w == 0 then {} else Ones(w - 1) + {w - 1}
  }

  // ----- one bit, eight bits, whole messages

  lemma StepPoly(poly: Reg, c: Reg, w: nat)
    requires 0 < w <= WIDTH && ClearFrom(c, w)
    ensures RegPoly(Step(poly, c), w) == Plus(Raise(RegPoly(c, w), 1), Select(c[0], Generator(poly, w)))
  {
    var r := Plus(Raise(RegPoly(c, w), 1), Select(c[0], Generator(poly, w)));
    assert w - 1 in RegPoly(c, w) <==> c[0];
    forall e: nat ensures e in RegPoly(Step(poly, c), w) <==> e in r {
      if 0 < e < w {
        assert Half(c)[w - 1 - e] == c[w - 1 - (e - 1)];
      } else if e == 0 {
        assert !Half(c)[w - 1];
      }
    }
  }

  lemma {:induction false} StepsDivide(poly: Reg, w: nat, c: Reg, a: Poly, n: nat)
    requires HasWidth(poly, w) && ClearFrom(c, w) && Congruent(a, RegPoly(c, w), Generator(poly, w))
    ensures Congruent(Raise(a, n), RegPoly(Steps(poly, c, n), w), Generator(poly, w))
    decreases n
  {
    hide Step, Plus, Raise, Select, RegPoly, Generator, Congruent, ClearFrom;
    if n == 0 {
      RaiseNone(a);
    } else {
      StepInjective(poly, w, c, c);
      StepPoly(poly, c, w);
      CongruentStep(a, RegPoly(c, w), Generator(poly, w), c[0]);
      StepsDivide(poly, w, Step(poly, c), Raise(a, 1), n - 1);
      RaiseTwice(a, 1, n - 1);
    }
  }

  lemma BytePoly(c: Reg, b: Byte, w: nat)
    requires 8 <= w <= WIDTH
    ensures RegPoly(Xor(c, ByteReg(b)), w) == Plus(RegPoly(c, w), Raise(Message([b]), w - 8))
  {
    var x, m := Xor(c, ByteReg(b)), Raise(Message([b]), w - 8);
    forall e: nat ensures e in RegPoly(x, w) <==> e in Plus(RegPoly(c, w), m) {
      if w - 8 <= e < w {
        var i := e - (w - 8);
        assert i / 8 == 0 && i % 8 == i;
        assert i in Message([b]) <==> b[7 - i];
        assert ByteReg(b)[w - 1 - e] == b[7 - i];
        XorBit(c, ByteReg(b), w - 1 - e);
      } else if e < w {
        assert !ByteReg(b)[w - 1 - e];
        XorBit(c, ByteReg(b), w - 1 - e);
      }
    }
  }

  lemma MessageSplit(data: seq<Byte>)
    requires data != []
    ensures Message(data) == Plus(Raise(Message([data[0]]), 8 * |data[1..]|), Message(data[1..]))
  {
    var n, first, rest := |data| - 1, Message([data[0]]), Message(data[1..]);
    forall e: nat ensures e in Message(data) <==> e in Plus(Raise(first, 8 * n), rest) {
      if e < 8 * n {
        assert e / 8 < n;
        assert data[n - e / 8] == data[1..][n - 1 - e / 8];
      } else if e < 8 * n + 8 {
        assert e / 8 == n && e % 8 == e - 8 * n;
        assert (e - 8 * n) / 8 == 0 && (e - 8 * n) % 8 == e - 8 * n;
        assert e - 8 * n in first <==> data[0][7 - (e - 8 * n)];
      }
    }
  }

  /** Feeding a message to a register is long division of what came before, continued by the message. */
  lemma {:induction false} FeedDivides(poly: Reg, w: nat, c: Reg, a: Poly, data: seq<Byte>)
    requires HasWidth(poly, w) && 8 <= w && ClearFrom(c, w) && Congruent(a, RegPoly(c, w), Generator(poly, w))
    ensures Congruent(Plus(Raise(a, 8 * |data|), Raise(Message(data), w)), RegPoly(Feed(poly, c, data), w),
                      Generator(poly, w))
    decreases |data|
  {
    hide Steps, Xor, Plus, Raise, RegPoly, Message, Generator, Congruent, ClearFrom, ByteReg, HasWidth;
    if data == [] {
      EmptyMessage(a, w);
    } else {
      var b, rest := data[0], data[1..];
      var x := Xor(c, ByteReg(b));
      WidthRange(poly, w);
      BytePoly(c, b, w);
      CongruentPlus(a, RegPoly(c, w), Raise(Message([b]), w - 8), Generator(poly, w));
      ByteRegWidth(b, w);
      XorClear(c, ByteReg(b), w);
      var more := Plus(a, Raise(Message([b]), w - 8));
      StepsDivide(poly, w, x, more, 8);
      StepsInjective(poly, w, x, x, 8);
      FeedDivides(poly, w, Steps(poly, x, 8), Raise(more, 8), rest);
      MessageSplit(data);
      Shifted(a, Message([b]), Message(rest), w, |rest|);
    }
  }

  lemma WidthRange(poly: Reg, w: nat)
    requires HasWidth(poly, w)
    ensures w <= WIDTH
  {
  }

  lemma EmptyMessage(a: Poly, w: nat)
    ensures Plus(Raise(a, 0), Raise(Message([]), w)) == a
  {
  }

  lemma Shifted(a: Poly, b: Poly, m: Poly, w: nat, n: nat)
    requires w >= 8
    ensures Plus(Raise(Raise(Plus(a, Raise(b, w - 8)), 8), 8 * n), Raise(m, w))
      == Plus(Raise(a, 8 * (n + 1)), Raise(Plus(Raise(b, 8 * n), m), w))
  {
    hide Plus, Raise;
    RaiseTwice(Plus(a, Raise(b, w - 8)), 8, 8 * n);
    RaisePlus(a, Raise(b, w - 8), 8 + 8 * n);
    RaiseTwice(b, w - 8, 8 + 8 * n);
    RaisePlus(Raise(b, 8 * n), m, w);
    RaiseTwice(b, 8 * n, w);
    PlusAssoc(Raise(a, 8 * (n + 1)), Raise(b, w + 8 * n), Raise(m, w));
  }

  lemma GeneratorBounds(poly: Reg, w: nat, c: Reg)
    requires w <= WIDTH
    ensures forall e | e in RegPoly(c, w) :: exists d :: d in Generator(poly, w) && e < d
  {
    assert w in Generator(poly, w);
  }

  /** The register is the remainder of the message, shifted up by the width and with the inverted start in front. */
  lemma ChecksumIsRemainder(poly: Reg, mask: Reg, w: nat, data: seq<Byte>)
    requires HasWidth(poly, w) && 8 <= w && ClearFrom(mask, w)
    ensures IsRemainder(RegPoly(Xor(Checksum(poly, mask, NIL, data), mask), w),
                        Plus(Raise(RegPoly(mask, w), 8 * |data|), Raise(Message(data), w)), Generator(poly, w))
    ensures ClearFrom(Checksum(poly, mask, NIL, data), w)
  {
    hide Feed, Xor, Plus, Raise, RegPoly, Message, Generator, Congruent, HasWidth;
    XorNil(mask);
    WidthRange(poly, w);
    CongruentToItself(RegPoly(mask, w), Generator(poly, w));
    FeedDivides(poly, w, mask, RegPoly(mask, w), data);
    var c := Feed(poly, mask, data);
    XorAssoc(c, mask, mask);
    XorSelf(mask);
    XorNil(c);
    GeneratorBounds(poly, w, c);
    FeedInjective(poly, w, mask, mask, data);
    XorClear(c, mask, w);
  }

  // ----- the two polynomials, with their exponents

  ghost function Terms(exponents: seq<nat>): Poly { set e | e in exponents }

  const CRC32_EXPONENTS: seq<nat> := [32] + ([26] + ([23, 22, 16] + ([12, 11, 10, 8] + [7, 5, 4, 2, 1, 0])))

  const CRC64_EXPONENTS: seq<nat> :=
    [64] + ([62, 57] + ([55, 54, 53, 52] + ([47, 46, 45, 40] + ([39, 38, 37, 35, 33, 32]
    + ([31, 29, 27, 24] + ([23, 22, 21, 19, 17] + ([13, 12, 10, 9] + [7, 4, 1, 0])))))))

  lemma Bytes32()
    ensures FourTerms(0xEDB88320, 28) + FourTerms(0xEDB8832, 24) == [26]
    ensures FourTerms(0xEDB883, 20) + FourTerms(0xEDB88, 16) == [23, 22, 16]
    ensures FourTerms(0xEDB8, 12) + FourTerms(0xEDB, 8) == [12, 11, 10, 8]
    ensures FourTerms(0xED, 4) + FourTerms(0xE, 0) == [7, 5, 4, 2, 1, 0]
  {
    assert FourTerms(0xEDB88320, 28) == [];
    assert FourTerms(0xEDB8832, 24) == [26];
    assert FourTerms(0xEDB883, 20) == [23, 22];
    assert FourTerms(0xEDB88, 16) == [16];
    assert FourTerms(0xEDB8, 12) == [12];
    assert FourTerms(0xEDB, 8) == [11, 10, 8];
    assert FourTerms(0xED, 4) == [7, 5, 4];
    assert FourTerms(0xE, 0) == [2, 1, 0];
  }

  lemma Exponents32()
    ensures CRC32_EXPONENTS == [32] + Exponents(0xEDB88320, 32)
  {
    hide Exponents, FourTerms;
    Bytes32();
    ByteTerms(0xEDB88320, 24, [26]);
    ByteTerms(0xEDB883, 16, [23, 22, 16]);
    ByteTerms(0xEDB8, 8, [12, 11, 10, 8]);
    ByteTerms(0xED, 0, [7, 5, 4, 2, 1, 0]);
    NoTerms();
  }

  lemma LowBytes64()
    ensures FourTerms(0xC96C5795D7870F42, 60) + FourTerms(0xC96C5795D7870F4, 56) == [62, 57]
    ensures FourTerms(0xC96C5795D7870F, 52) + FourTerms(0xC96C5795D7870, 48) == [55, 54, 53, 52]
    ensures FourTerms(0xC96C5795D787, 44) + FourTerms(0xC96C5795D78, 40) == [47, 46, 45, 40]
    ensures FourTerms(0xC96C5795D7, 36) + FourTerms(0xC96C5795D, 32) == [39, 38, 37, 35, 33, 32]
  {
    assert FourTerms(0xC96C5795D7870F42, 60) == [62];
    assert FourTerms(0xC96C5795D7870F4, 56) == [57];
    assert FourTerms(0xC96C5795D7870F, 52) == [55, 54, 53, 52];
    assert FourTerms(0xC96C5795D7870, 48) == [];
    assert FourTerms(0xC96C5795D787, 44) == [47, 46, 45];
    assert FourTerms(0xC96C5795D78, 40) == [40];
    assert FourTerms(0xC96C5795D7, 36) == [39, 38, 37];
    assert FourTerms(0xC96C5795D, 32) == [35, 33, 32];
  }

  lemma HighBytes64()
    ensures FourTerms(0xC96C5795, 28) + FourTerms(0xC96C579, 24) == [31, 29, 27, 24]
    ensures FourTerms(0xC96C57, 20) + FourTerms(0xC96C5, 16) == [23, 22, 21, 19, 17]
    ensures FourTerms(0xC96C, 12) + FourTerms(0xC96, 8) == [13, 12, 10, 9]
    ensures FourTerms(0xC9, 4) + FourTerms(0xC, 0) == [7, 4, 1, 0]
  {
    assert FourTerms(0xC96C5795, 28) == [31, 29];
    assert FourTerms(0xC96C579, 24) == [27, 24];
    assert FourTerms(0xC96C57, 20) == [23, 22, 21];
    assert FourTerms(0xC96C5, 16) == [19, 17];
    assert FourTerms(0xC96C, 12) == [13, 12];
    assert FourTerms(0xC96, 8) == [10, 9];
    assert FourTerms(0xC9, 4) == [7, 4];
    assert FourTerms(0xC, 0) == [1, 0];
  }

  lemma Exponents64()
    ensures CRC64_EXPONENTS == [64] + Exponents(0xC96C5795D7870F42, 64)
  {
    hide Exponents, FourTerms;
    LowBytes64();
    HighBytes64();
    ByteTerms(0xC96C5795D7870F42, 56, [62, 57]);
    ByteTerms(0xC96C5795D7870F, 48, [55, 54, 53, 52]);
    ByteTerms(0xC96C5795D787, 40, [47, 46, 45, 40]);
    ByteTerms(0xC96C5795D7, 32, [39, 38, 37, 35, 33, 32]);
    ByteTerms(0xC96C5795, 24, [31, 29, 27, 24]);
    ByteTerms(0xC96C57, 16, [23, 22, 21, 19, 17]);
    ByteTerms(0xC96C, 8, [13, 12, 10, 9]);
    ByteTerms(0xC9, 0, [7, 4, 1, 0]);
    NoTerms();
  }

  lemma Spelled(poly: Reg, w: nat, v: nat)
    requires w <= WIDTH && poly[..w] == Digits(v, w)
    ensures Generator(poly, w) == Terms([w] + Exponents(v, w))
  {
    hide Digits, Exponents;
    forall e: nat ensures e in Generator(poly, w) <==> e in [w] + Exponents(v, w) {
      ExponentsAre(v, w, e);
      if e < w { assert poly[w - 1 - e] == poly[..w][w - 1 - e]; }
    }
  }

  lemma Generator32()
    ensures Generator(POLY32, 32) == Terms(CRC32_EXPONENTS)
  {
    hide Digits, Exponents;
    Powers();
    DigitsPad(0xEDB88320, 32, WIDTH);
    Spelled(POLY32, 32, 0xEDB88320);
    Exponents32();
  }

  lemma Generator64()
    ensures Generator(POLY64, 64) == Terms(CRC64_EXPONENTS)
  {
    hide Digits, Exponents;
    Spelled(POLY64, 64, 0xC96C5795D7870F42);
    Exponents64();
  }

  /** CRC-32 is the complement of the remainder that x^32 + x^26 + x^23 + ... + x + 1 leaves of the message times x^32,
      its first 32 bits inverted. */
  lemma Crc32IsRemainder(data: seq<Byte>)
    ensures IsRemainder(Plus(RegPoly(Crc32(data), 32), Ones(32)),
                        Plus(Raise(Ones(32), 8 * |data|), Raise(Message(data), 32)), Terms(CRC32_EXPONENTS))
    ensures ClearFrom(Crc32(data), 32)
  {
    hide Checksum, IsRemainder, Plus, Raise, Generator, RegPoly, HasWidth;
    Width32();
    Generator32();
    ChecksumIsRemainder(POLY32, MASK32, 32, data);
    Masks();
    Inverted(Crc32(data), MASK32, 32);
  }

  /** The same of CRC-64/XZ and its polynomial of degree 64. */
  lemma Crc64IsRemainder(data: seq<Byte>)
    ensures IsRemainder(Plus(RegPoly(Crc64Xz(data), 64), Ones(64)),
                        Plus(Raise(Ones(64), 8 * |data|), Raise(Message(data), 64)), Terms(CRC64_EXPONENTS))
  {
    hide Checksum, IsRemainder, Plus, Raise, Generator, RegPoly, HasWidth;
    Width64();
    Generator64();
    ChecksumIsRemainder(POLY64, MASK64, 64, data);
    Masks();
    Inverted(Crc64Xz(data), MASK64, 64);
  }

  lemma Inverted(c: Reg, mask: Reg, w: nat)
    requires w <= WIDTH
    ensures RegPoly(Xor(c, mask), w) == Plus(RegPoly(c, w), RegPoly(mask, w))
  {
  }

  lemma {:induction false} AllOnes(v: nat, n: nat, i: nat)
    requires v == Pow2(n) - 1 && i < n
    ensures Digits(v, n)[i]
    decreases n
  {
    if i > 0 { AllOnes(v / 2, n - 1, i - 1); }
  }

  lemma Masks()
    ensures RegPoly(MASK32, 32) == Ones(32) && RegPoly(MASK64, 64) == Ones(64)
  {
    hide Digits, Pow2;
    Powers();
    Pow2Next(63);
    DigitsPad(0xFFFFFFFF, 32, WIDTH);
    forall e: nat | e < 32 ensures e in RegPoly(MASK32, 32) { AllOnes(0xFFFFFFFF, 32, 31 - e); }
    forall e: nat | e < 64 ensures e in RegPoly(MASK64, 64) { AllOnes(0xFFFFFFFFFFFFFFFF, 64, 63 - e); }
  }
}
