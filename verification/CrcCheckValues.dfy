/** The check values by which CRC-32 and CRC-64/XZ are identified, evaluated on 64-bit words. */
module CrcCheckValues {
  import opened Crc
  import opened CrcTables
  import opened ByteStrings
  import opened ByteWords
  import opened PowersOfTwo

  predicate Odd(v: bv64) { v & 1 == 1 }

  function Down(v: bv64): bv64 { v >> 1 }

  function Both(a: bv64, b: bv64): bv64 { a ^ b }

  /** The n low bits of a word, lowest first. */
  function Unroll(v: bv64, n: nat): (b: Bits)
    ensures |b| == n
    decreases n
  {
    if n == 0 then [] else [Odd(v)] + Unroll(Down(v), n - 1)
  }

  function RegOf(v: bv64): Reg { Unroll(v, WIDTH) }

  // ----- words and registers

  lemma BothLow(a: bv64, b: bv64)
    ensures Odd(Both(a, b)) == (Odd(a) != Odd(b)) && Down(Both(a, b)) == Both(Down(a), Down(b))
  {
  }

  lemma {:induction false} UnrollBoth(a: bv64, b: bv64, n: nat, i: nat)
    requires i < n
    ensures Unroll(Both(a, b), n)[i] == (Unroll(a, n)[i] != Unroll(b, n)[i])
    decreases n
  {
    hide Odd, Down, Both;
    BothLow(a, b);
    if i > 0 { UnrollBoth(Down(a), Down(b), n - 1, i - 1); }
  }

  lemma RegBoth(a: bv64, b: bv64)
    ensures RegOf(Both(a, b)) == Xor(RegOf(a), RegOf(b))
  {
    hide Unroll, Both;
    forall i: nat | i < WIDTH ensures RegOf(Both(a, b))[i] == Xor(RegOf(a), RegOf(b))[i] {
      UnrollBoth(a, b, WIDTH, i);
      XorBit(RegOf(a), RegOf(b), i);
    }
  }

  function Down8(v: bv64): bv64 { v >> 8 }

  lemma DownEight(v: bv64)
    ensures Down(Down(Down(Down(Down(Down(Down(Down(v)))))))) == Down8(v)
  {
  }

  lemma DownAll(v: bv64)
    ensures Down8(Down8(Down8(Down8(Down8(Down8(Down8(Down8(v)))))))) == 0
  {
  }

  lemma UnrollNext(v: bv64, n: nat)
    ensures Unroll(v, n + 1)[1..] == Unroll(Down(v), n)
  {
    hide Odd, Down;
    assert Unroll(v, n + 1) == [Odd(v)] + Unroll(Down(v), n);
  }

  lemma UnrollTwo(v: bv64, n: nat)
    ensures Unroll(v, n + 2)[2..] == Unroll(Down(Down(v)), n)
  {
    hide Odd, Down, Unroll;
    UnrollNext(v, n + 1);
    UnrollNext(Down(v), n);
    assert Unroll(v, n + 2)[2..] == Unroll(v, n + 2)[1..][1..];
  }

  lemma UnrollEight(v: bv64, n: nat)
    ensures Unroll(v, n + 8)[8..] == Unroll(Down8(v), n)
  {
    hide Odd, Down, Down8, Unroll;
    DownEight(v);
    var v2 := Down(Down(v));
    var v4 := Down(Down(v2));
    UnrollTwo(v, n + 6);
    UnrollTwo(v2, n + 4);
    UnrollTwo(v4, n + 2);
    UnrollTwo(Down(Down(v4)), n);
  }

  lemma UnrollTop(v: bv64)
    ensures !Unroll(v, 65)[64]
  {
    hide Odd, Down, Down8, Unroll;
    var v2 := Down8(Down8(v));
    var v4 := Down8(Down8(v2));
    var v6 := Down8(Down8(v4));
    UnrollEight(v, 57);
    UnrollEight(Down8(v), 49);
    UnrollEight(v2, 41);
    UnrollEight(Down8(v2), 33);
    UnrollEight(v4, 25);
    UnrollEight(Down8(v4), 17);
    UnrollEight(v6, 9);
    UnrollEight(Down8(v6), 1);
    DownAll(v);
    UnrollZero();
  }

  lemma UnrollZero()
    ensures !Unroll(0, 1)[0]
  {
  }

  lemma {:induction false} UnrollPrefix(v: bv64, m: nat, n: nat)
    requires m <= n
    ensures Unroll(v, n)[..m] == Unroll(v, m)
    decreases m
  {
    hide Odd, Down;
    if m > 0 { UnrollPrefix(Down(v), m - 1, n - 1); }
  }

  lemma RegDown(v: bv64)
    ensures RegOf(Down(v)) == Half(RegOf(v)) && RegOf(v)[0] == Odd(v)
  {
    hide Odd, Down;
    UnrollTop(v);
    UnrollPrefix(v, WIDTH, 65);
    var all := Unroll(v, 65);
    assert all[1..] == Unroll(Down(v), WIDTH);
    assert all == all[..WIDTH] + [false];
  }

  // ----- the checksum loop on words

  function WordStep(p: bv64, v: bv64): bv64 { if Odd(v) then Both(Down(v), p) else Down(v) }

  lemma RegStep(p: bv64, v: bv64)
    ensures RegOf(WordStep(p, v)) == Step(RegOf(p), RegOf(v))
  {
    hide Odd, Down, Both, RegOf, Xor, Half;
    RegDown(v);
    RegBoth(Down(v), p);
  }

  function WordSteps(p: bv64, v: bv64, n: nat): bv64
    decreases n
  {
    if n == 0 then v else WordSteps(p, WordStep(p, v), n - 1)
  }

  lemma {:induction false} RegSteps(p: bv64, v: bv64, n: nat)
    ensures RegOf(WordSteps(p, v, n)) == Steps(RegOf(p), RegOf(v), n)
    decreases n
  {
    hide WordStep, RegOf, Step;
    if n > 0 {
      RegStep(p, v);
      RegSteps(p, WordStep(p, v), n - 1);
    }
  }

  // ----- numbers and words

  /** The n low digits of v are the n low bits of w. */
  predicate Same(v: nat, w: bv64, n: nat)
    decreases n
  {
    n == 0 || ((v % 2 == 1) == Odd(w) && Same(v / 2, Down(w), n - 1))
  }

  lemma {:induction false} SameDigits(v: nat, w: bv64, n: nat)
    requires Same(v, w, n)
    ensures Digits(v, n) == Unroll(w, n)
    decreases n
  {
    hide Odd, Down;
    if n > 0 { SameDigits(v / 2, Down(w), n - 1); }
  }

  lemma SameTwo(v: nat, w: bv64, n: nat)
    ensures Same(v, w, n + 2) <==> Same(v, w, 2) && Same(v / 4, Down(Down(w)), n)
  {
    hide Odd, Down;
    assert v / 2 / 2 == v / 4;
  }

  lemma SameEight(v: nat, w: bv64, n: nat)
    requires Same(v, w, 8) && Same(v / 256, Down8(w), n)
    ensures Same(v, w, n + 8)
  {
    hide Odd, Down, Down8, Same;
    DownEight(w);
    var w2 := Down(Down(w));
    var w4 := Down(Down(w2));
    assert v / 4 / 4 == v / 16 && v / 16 / 4 == v / 64 && v / 64 / 4 == v / 256;
    SameTwo(v, w, n + 6);
    SameTwo(v / 4, w2, n + 4);
    SameTwo(v / 16, w4, n + 2);
    SameTwo(v / 64, Down(Down(w4)), n);
    SameTwo(v, w, 6);
    SameTwo(v / 4, w2, 4);
    SameTwo(v / 16, w4, 2);
    SameTwo(v / 64, Down(Down(w4)), 0);
  }

  function LowPart(w: bv64): bv8 { (w & 0xFF) as bv8 }

  /** A word and a byte have the same bits under the mask. */
  predicate Agree(w: bv64, b: bv8, mask: bv8) { w & (mask as bv64) == (b & mask) as bv64 }

  lemma AgreeStep(w: bv64, b: bv8, mask: bv8)
    requires Agree(w, b, mask) && mask & 1 == 1
    ensures Odd(w) == (b & 1 == 1) && Agree(Down(w), b >> 1, mask >> 1)
  {
  }

  lemma LowStep(v: nat, w: bv64, b: bv8, mask: bv8, p: nat)
    requires p > 0 && v % (2 * p) == b as nat % (2 * p) && Agree(w, b, mask) && mask & 1 == 1
    ensures (v % 2 == 1) == Odd(w)
    ensures v / 2 % p == (b >> 1) as nat % p && Agree(Down(w), b >> 1, mask >> 1)
  {
    hide Odd, Down, Agree;
    AgreeStep(w, b, mask);
    ByteHalf(b);
    HalfModulo(v, p);
    HalfModulo(b as nat, p);
  }

  lemma HalfModulo(v: nat, p: nat)
    requires p > 0
    ensures v % 2 == v % (2 * p) % 2 && v / 2 % p == v % (2 * p) / 2
  {
    HalfModuloOf(v, p, v / (2 * p), v % (2 * p));
  }

  lemma HalfModuloOf(v: nat, p: nat, q: nat, r: nat)
    requires v == 2 * p * q + r && r < 2 * p
    ensures v % 2 == r % 2 && p > 0 && v / 2 % p == r / 2
  {
    assert 2 * p * q == 2 * (p * q);
    HalfOfSum(p * q, r);
    QuotientAndRemainder(v / 2, p, q, r / 2);
  }

  lemma SameNext(v: nat, w: bv64, n: nat)
    requires (v % 2 == 1) == Odd(w) && Same(v / 2, Down(w), n)
    ensures Same(v, w, n + 1)
  {
  }

  lemma {:induction false} SameUnder(v: nat, w: bv64, b: bv8, masks: seq<bv8>, n: nat)
    requires n <= |masks| && v % Pow2(n) == b as nat % Pow2(n) && (n > 0 ==> Agree(w, b, masks[n - 1]))
    requires forall i :: 0 <= i < n ==> masks[i] & 1 == 1 && (i > 0 ==> masks[i] >> 1 == masks[i - 1])
    ensures Same(v, w, n)
    decreases n
  {
    hide Odd, Down, Agree, Same, Pow2;
    if n == 0 {
      SameNone(v, w);
    } else {
      Pow2Next(n - 1);
      LowStep(v, w, b, masks[n - 1], Pow2(n - 1));
      SameUnder(v / 2, Down(w), b >> 1, masks, n - 1);
      SameNext(v, w, n - 1);
    }
  }

  lemma SameByte(v: nat, w: bv64)
    requires v % 256 == LowPart(w) as nat
    ensures Same(v, w, 8)
  {
    hide Odd, Down, Same, LowPart;
    LowAgrees(w);
    assert Pow2(4) == 16;
    assert Pow2(8) == 256;
    ByteSmall(LowPart(w));
    SameUnder(v, w, LowPart(w), [1, 3, 7, 15, 31, 63, 127, 255], 8);
  }

  lemma LowAgrees(w: bv64)
    ensures Agree(w, LowPart(w), 255)
  {
  }

  lemma ByteSmall(b: bv8)
    ensures b as nat % 256 == b as nat
  {
  }

  predicate SameBytes(v: nat, w: bv64, n: nat)
    decreases n
  {
    n == 0 || (v % 256 == LowPart(w) as nat && SameBytes(v / 256, Down8(w), n - 1))
  }

  lemma {:induction false} SameWhole(v: nat, w: bv64, n: nat)
    requires SameBytes(v, w, n)
    ensures Same(v, w, 8 * n)
    decreases n
  {
    hide Odd, Down, Down8, Same, LowPart;
    if n == 0 {
      SameNone(v, w);
    } else {
      SameWhole(v / 256, Down8(w), n - 1);
      SameByte(v, w);
      SameEight(v, w, 8 * (n - 1));
    }
  }

  lemma SameNone(v: nat, w: bv64)
    ensures Same(v, w, 0)
  {
  }

  lemma SameReg(v: nat, w: bv64)
    requires SameBytes(v, w, 8)
    ensures Digits(v, WIDTH) == RegOf(w)
  {
    hide Digits, Unroll, Same, SameBytes;
    SameWhole(v, w, 8);
    SameDigits(v, w, 64);
  }

  lemma Polynomial32()
    ensures RegOf(0xEDB88320) == POLY32
  {
    hide Digits, Unroll;
    SameReg(0xEDB88320, 0xEDB88320);
  }

  lemma Polynomial64()
    ensures RegOf(0xC96C5795D7870F42) == POLY64
  {
    hide Digits, Unroll;
    SameReg(0xC96C5795D7870F42, 0xC96C5795D7870F42);
  }

  lemma WordMask32()
    ensures RegOf(0xFFFFFFFF) == MASK32
  {
    hide Digits, Unroll;
    SameReg(0xFFFFFFFF, 0xFFFFFFFF);
  }

  lemma WordMask64()
    ensures RegOf(0xFFFFFFFFFFFFFFFF) == MASK64
  {
    hide Digits, Unroll;
    SameReg(0xFFFFFFFFFFFFFFFF, 0xFFFFFFFFFFFFFFFF);
  }

  // ----- "123456789"

  const CHECK: Bytes := [0x31, 0x32, 0x33, 0x34, 0x35, 0x36, 0x37, 0x38, 0x39]

  /** After i bytes of the data the register holds v. */
  ghost predicate After(data: Bytes, p: bv64, start: bv64, i: nat, v: bv64) {
    i <= |data| && |BitsOf(data)| == |data| && Feed(RegOf(p), RegOf(start), BitsOf(data)[..i]) == RegOf(v)
  }

  /** The word b holds the byte n. */
  predicate Holds(b: bv64, n: nat) { LowPart(b) as nat == n && Down8(b) == 0 }

  lemma HeldBytes(b: bv64, n: nat)
    requires Holds(b, n)
    ensures n < 256 && SameBytes(n, b, 8)
  {
    ByteBelow(LowPart(b));
    ZeroBytes(7);
  }

  lemma ByteBelow(b: bv8)
    ensures b as nat < 256
  {
  }

  lemma {:induction false} ZeroBytes(n: nat)
    ensures SameBytes(0, 0, n)
  {
    if n > 0 { ZeroBytes(n - 1); }
  }

  lemma NextByte(data: Bytes, p: bv64, start: bv64, v: bv64, i: nat, b: bv64, w: bv64)
    requires i < |data| && After(data, p, start, i, v) && Holds(b, data[i]) && WordSteps(p, Both(v, b), 8) == w
    ensures After(data, p, start, i + 1, w)
  {
    hide Feed, Unroll, Xor, ByteReg, Digits, SameBytes, Steps, WordSteps, Both, RegOf, Holds;
    var bits := BitsOf(data);
    HeldBytes(b, data[i]);
    FeedNext(RegOf(p), RegOf(start), bits, i);
    assert bits[i] == Digits(data[i], 8);
    SmallDigits(data[i]);
    SameReg(data[i], b);
    RegBoth(v, b);
    RegSteps(p, Both(v, b), 8);
  }

  lemma NoBytes(data: Bytes, p: bv64, start: bv64)
    ensures After(data, p, start, 0, start)
  {
    hide RegOf;
    FeedEmpty(RegOf(p), RegOf(start), BitsOf(data));
  }

  lemma CheckBytes()
    ensures Holds(0x31, CHECK[0])
    ensures Holds(0x32, CHECK[1])
    ensures Holds(0x33, CHECK[2])
    ensures Holds(0x34, CHECK[3])
    ensures Holds(0x35, CHECK[4])
    ensures Holds(0x36, CHECK[5])
    ensures Holds(0x37, CHECK[6])
    ensures Holds(0x38, CHECK[7])
    ensures Holds(0x39, CHECK[8])
  {
  }

  lemma Words32()
    ensures WordSteps(0xEDB88320, Both(0xFFFFFFFF, 0x31), 8) == 0x7C231048
    ensures WordSteps(0xEDB88320, Both(0x7C231048, 0x32), 8) == 0xB0ACBB32
    ensures WordSteps(0xEDB88320, Both(0xB0ACBB32, 0x33), 8) == 0x77B79C2D
    ensures WordSteps(0xEDB88320, Both(0x77B79C2D, 0x34), 8) == 0x641C1F5C
    ensures WordSteps(0xEDB88320, Both(0x641C1F5C, 0x35), 8) == 0x340AC5E3
    ensures WordSteps(0xEDB88320, Both(0x340AC5E3, 0x36), 8) == 0xF68D2C9E
    ensures WordSteps(0xEDB88320, Both(0xF68D2C9E, 0x37), 8) == 0xAFFC9660
    ensures WordSteps(0xEDB88320, Both(0xAFFC9660, 0x38), 8) == 0x651F2550
    ensures WordSteps(0xEDB88320, Both(0x651F2550, 0x39), 8) == 0x340BC6D9
  {
  }

  lemma Words64()
    ensures WordSteps(0xC96C5795D7870F42, Both(0xFFFFFFFFFFFFFFFF, 0x31), 8) == 0xD5D0F17A6B6A3512
    ensures WordSteps(0xC96C5795D7870F42, Both(0xD5D0F17A6B6A3512, 0x32), 8) == 0xFBE29281D80DA6A7
    ensures WordSteps(0xC96C5795D7870F42, Both(0xFBE29281D80DA6A7, 0x33), 8) == 0xCFDCD7BBF8E33A9E
    ensures WordSteps(0xC96C5795D7870F42, Both(0xCFDCD7BBF8E33A9E, 0x34), 8) == 0x31B1786C99473CD7
    ensures WordSteps(0xC96C5795D7870F42, Both(0x31B1786C99473CD7, 0x35), 8) == 0xA258B9005AFBA316
    ensures WordSteps(0xC96C5795D7870F42, Both(0xA258B9005AFBA316, 0x36), 8) == 0xFB951AC9A23C3731
    ensures WordSteps(0xC96C5795D7870F42, Both(0xFB951AC9A23C3731, 0x37), 8) == 0x8FAF60C99E6DC25F
    ensures WordSteps(0xC96C5795D7870F42, Both(0x8FAF60C99E6DC25F, 0x38), 8) == 0xA3747FB7D45387F6
    ensures WordSteps(0xC96C5795D7870F42, Both(0xA3747FB7D45387F6, 0x39), 8) == 0x66A2364420E6C605
  {
  }

  lemma Fed32()
    ensures After(CHECK, 0xEDB88320, 0xFFFFFFFF, 9, 0x340BC6D9)
  {
    hide After, Holds, WordSteps, Both;
    CheckBytes();
    Words32();
    NoBytes(CHECK, 0xEDB88320, 0xFFFFFFFF);
    NextByte(CHECK, 0xEDB88320, 0xFFFFFFFF, 0xFFFFFFFF, 0, 0x31, 0x7C231048);
    NextByte(CHECK, 0xEDB88320, 0xFFFFFFFF, 0x7C231048, 1, 0x32, 0xB0ACBB32);
    NextByte(CHECK, 0xEDB88320, 0xFFFFFFFF, 0xB0ACBB32, 2, 0x33, 0x77B79C2D);
    NextByte(CHECK, 0xEDB88320, 0xFFFFFFFF, 0x77B79C2D, 3, 0x34, 0x641C1F5C);
    NextByte(CHECK, 0xEDB88320, 0xFFFFFFFF, 0x641C1F5C, 4, 0x35, 0x340AC5E3);
    NextByte(CHECK, 0xEDB88320, 0xFFFFFFFF, 0x340AC5E3, 5, 0x36, 0xF68D2C9E);
    NextByte(CHECK, 0xEDB88320, 0xFFFFFFFF, 0xF68D2C9E, 6, 0x37, 0xAFFC9660);
    NextByte(CHECK, 0xEDB88320, 0xFFFFFFFF, 0xAFFC9660, 7, 0x38, 0x651F2550);
    NextByte(CHECK, 0xEDB88320, 0xFFFFFFFF, 0x651F2550, 8, 0x39, 0x340BC6D9);
  }

  lemma Fed64()
    ensures After(CHECK, 0xC96C5795D7870F42, 0xFFFFFFFFFFFFFFFF, 9, 0x66A2364420E6C605)
  {
    hide After, Holds, WordSteps, Both;
    CheckBytes();
    Words64();
    NoBytes(CHECK, 0xC96C5795D7870F42, 0xFFFFFFFFFFFFFFFF);
    NextByte(CHECK, 0xC96C5795D7870F42, 0xFFFFFFFFFFFFFFFF, 0xFFFFFFFFFFFFFFFF, 0, 0x31, 0xD5D0F17A6B6A3512);
    NextByte(CHECK, 0xC96C5795D7870F42, 0xFFFFFFFFFFFFFFFF, 0xD5D0F17A6B6A3512, 1, 0x32, 0xFBE29281D80DA6A7);
    NextByte(CHECK, 0xC96C5795D7870F42, 0xFFFFFFFFFFFFFFFF, 0xFBE29281D80DA6A7, 2, 0x33, 0xCFDCD7BBF8E33A9E);
    NextByte(CHECK, 0xC96C5795D7870F42, 0xFFFFFFFFFFFFFFFF, 0xCFDCD7BBF8E33A9E, 3, 0x34, 0x31B1786C99473CD7);
    NextByte(CHECK, 0xC96C5795D7870F42, 0xFFFFFFFFFFFFFFFF, 0x31B1786C99473CD7, 4, 0x35, 0xA258B9005AFBA316);
    NextByte(CHECK, 0xC96C5795D7870F42, 0xFFFFFFFFFFFFFFFF, 0xA258B9005AFBA316, 5, 0x36, 0xFB951AC9A23C3731);
    NextByte(CHECK, 0xC96C5795D7870F42, 0xFFFFFFFFFFFFFFFF, 0xFB951AC9A23C3731, 6, 0x37, 0x8FAF60C99E6DC25F);
    NextByte(CHECK, 0xC96C5795D7870F42, 0xFFFFFFFFFFFFFFFF, 0x8FAF60C99E6DC25F, 7, 0x38, 0xA3747FB7D45387F6);
    NextByte(CHECK, 0xC96C5795D7870F42, 0xFFFFFFFFFFFFFFFF, 0xA3747FB7D45387F6, 8, 0x39, 0x66A2364420E6C605);
  }

  lemma Complement(data: Bytes, poly: Reg, mask: Reg, p: bv64, m: bv64, v: bv64)
    requires RegOf(p) == poly && RegOf(m) == mask && After(data, p, m, |data|, v)
    ensures Checksum(poly, mask, NIL, BitsOf(data)) == RegOf(Both(v, m))
  {
    hide Feed, Xor, Both, RegOf, Digits;
    XorNil(mask);
    RegBoth(v, m);
    assert BitsOf(data)[..|data|] == BitsOf(data);
  }

  /** The number that a final register stands for. */
  lemma Finished32(data: Bytes, v: bv64, crc: nat)
    requires After(data, 0xEDB88320, 0xFFFFFFFF, |data|, v)
    requires crc < TWO32 && SameBytes(crc, Both(v, 0xFFFFFFFF), 8)
    ensures CrcOf(data) == crc
  {
    hide Checksum, Digits, Unroll, Value, BitsOf, Pow2, After, SameBytes, Both;
    Polynomial32();
    WordMask32();
    Complement(data, POLY32, MASK32, 0xEDB88320, 0xFFFFFFFF, v);
    SameReg(crc, Both(v, 0xFFFFFFFF));
    Powers();
    DigitsPad(crc, 32, WIDTH);
    DigitsValue(crc, 32);
    assert (Digits(crc, 32) + Zeros(32))[..32] == Digits(crc, 32);
  }

  /** CRC-32 of "123456789" is CBF43926. */
  lemma CheckValue32()
    ensures CrcOf(CHECK) == 0xCBF43926
  {
    hide After, CrcOf;
    Fed32();
    Finished32(CHECK, 0x340BC6D9, 0xCBF43926);
  }

  /** CRC-64/XZ of "123456789" is 995DC9BBDF1939FA. */
  lemma CheckValue64()
    ensures Crc64Xz(BitsOf(CHECK)) == Digits(0x995DC9BBDF1939FA, WIDTH)
  {
    hide Checksum, Digits, Unroll, BitsOf, After, SameBytes;
    Polynomial64();
    WordMask64();
    Fed64();
    Complement(CHECK, POLY64, MASK64, 0xC96C5795D7870F42, 0xFFFFFFFFFFFFFFFF, 0x66A2364420E6C605);
    Result64();
  }

  lemma Result64()
    ensures RegOf(Both(0x66A2364420E6C605, 0xFFFFFFFFFFFFFFFF)) == Digits(0x995DC9BBDF1939FA, WIDTH)
  {
    hide Digits, Unroll;
    SameReg(0x995DC9BBDF1939FA, 0x995DC9BBDF1939FA);
  }
}
