/** CRC-32 and CRC-64/XZ: the bit-at-a-time definition of the reflected checksum. A register is its 64 bits,
    lowest first; CRC-32 runs in the low half of such a register. */
module Crc {

  type Bits = seq<bool>

  function Zeros(n: nat): (z: Bits)
    ensures |z| == n && forall i: nat | i < n :: !z[i]
  {
    seq(n, _ => false)
  }

  const WIDTH: nat := 64

  type Reg = c: Bits | |c| == WIDTH witness Zeros(WIDTH)

  const NIL: Reg := Zeros(WIDTH)

  /** The low `n` binary digits of a number, lowest first. */
  function Digits(v: nat, n: nat): (b: Bits)
    ensures |b| == n
    decreases n
  {
    if n == 0 then [] else [v % 2 == 1] + Digits(v / 2, n - 1)
  }

  function Value(b: Bits): nat { if b == [] then 0 else (if b[0] then 1 else 0) + 2 * Value(b[1..]) }

  const POLY32: Reg := Digits(0xEDB88320, WIDTH)
  const POLY64: Reg := Digits(0xC96C5795D7870F42, WIDTH)
  const MASK32: Reg := Digits(0xFFFFFFFF, WIDTH)
  const MASK64: Reg := Digits(0xFFFFFFFFFFFFFFFF, WIDTH)

  function Xor(a: Reg, b: Reg): Reg { seq(WIDTH, i requires 0 <= i < WIDTH => a[i] != b[i]) }

  /** Shift down by one bit. */
  function Half(c: Reg): Reg { c[1..] + [false] }

  /** One bit of input, already XORed into the register, moves out. */
  function Step(poly: Reg, c: Reg): Reg { if c[0] then Xor(Half(c), poly) else Half(c) }

  function Steps(poly: Reg, c: Reg, n: nat): Reg
    decreases n
  {
    if n == 0 then c else Steps(poly, Step(poly, c), n - 1)
  }

  type Byte = b: Bits | |b| == 8 witness Zeros(8)

  function ByteReg(b: Byte): Reg { b + Zeros(WIDTH - 8) }

  /** The definition: each byte is XORed in and moves out bit by bit. */
  function Feed(poly: Reg, c: Reg, data: seq<Byte>): Reg
    decreases |data|
  {
    if data == [] then c else Feed(poly, Steps(poly, Xor(c, ByteReg(data[0])), 8), data[1..])
  }

  /** The checksum with pre- and post-inversion, continued from `init`. */
  function Checksum(poly: Reg, mask: Reg, init: Reg, data: seq<Byte>): Reg {
    Xor(Feed(poly, Xor(init, mask), data), mask)
  }

  // ----- algebra of the register

  lemma XorComm(a: Reg, b: Reg) ensures Xor(a, b) == Xor(b, a) {}

  lemma XorAssoc(a: Reg, b: Reg, c: Reg) ensures Xor(Xor(a, b), c) == Xor(a, Xor(b, c)) {}

  lemma XorSelf(a: Reg) ensures Xor(a, a) == NIL {}

  lemma XorNil(a: Reg) ensures Xor(a, NIL) == a && Xor(NIL, a) == a {}

  lemma XorExchange(a: Reg, b: Reg, c: Reg, d: Reg)
    ensures Xor(Xor(a, b), Xor(c, d)) == Xor(Xor(a, c), Xor(b, d))
  {
  }

  lemma XorCancel(a: Reg, b: Reg, c: Reg)
    requires Xor(a, c) == Xor(b, c)
    ensures a == b
  {
    hide Xor;
    XorAssoc(a, c, c);
    XorAssoc(b, c, c);
    XorSelf(c);
    XorNil(a);
    XorNil(b);
  }

  lemma HalfXor(a: Reg, b: Reg) ensures Half(Xor(a, b)) == Xor(Half(a), Half(b)) {}

  lemma StepXor(poly: Reg, a: Reg, b: Reg)
    ensures Step(poly, Xor(a, b)) == Xor(Step(poly, a), Step(poly, b))
  {
    HalfXor(a, b);
    assert Xor(a, b)[0] == (a[0] != b[0]);
    var p, q := Half(a), Half(b);
    if a[0] && b[0] {
      XorExchange(p, poly, q, poly);
      XorSelf(poly);
      XorNil(Xor(p, q));
    } else if a[0] {
      XorAssoc(p, poly, q);
      XorComm(poly, q);
      XorAssoc(p, q, poly);
    } else if b[0] {
      XorAssoc(p, q, poly);
    }
  }

  lemma {:induction false} StepsXor(poly: Reg, a: Reg, b: Reg, n: nat)
    ensures Steps(poly, Xor(a, b), n) == Xor(Steps(poly, a, n), Steps(poly, b, n))
    decreases n
  {
    hide Xor, Step;
    if n > 0 {
      StepXor(poly, a, b);
      StepsXor(poly, Step(poly, a), Step(poly, b), n - 1);
    }
  }

  lemma {:induction false} StepsAdd(poly: Reg, c: Reg, m: nat, n: nat)
    ensures Steps(poly, Steps(poly, c, m), n) == Steps(poly, c, m + n)
    decreases m
  {
    hide Step;
    if m > 0 { StepsAdd(poly, Step(poly, c), m - 1, n); }
  }

  // ----- whole bytes at a time

  /** `c` moved up by k bits, the bits moved past the top dropped. */
  function Lift(c: Reg, k: nat): Reg
    requires k <= WIDTH
  {
    Zeros(k) + c[..WIDTH - k]
  }

  predicate ClearFrom(c: Reg, n: nat) { forall i: nat | n <= i < WIDTH :: !c[i] }

  lemma LiftHalf(poly: Reg, c: Reg, k: nat)
    requires 0 < k <= 8 && ClearFrom(c, WIDTH - 8)
    ensures Step(poly, Lift(c, k)) == Lift(c, k - 1)
  {
    var up, down := Lift(c, k), Lift(c, k - 1);
    assert !up[0];
    forall i: nat | i < WIDTH ensures Half(up)[i] == down[i] {
      if i < k - 1 {
        assert !down[i] && !up[i + 1];
      } else if i < WIDTH - 1 {
        assert up[i + 1] == c[i + 1 - k] && down[i] == c[i - (k - 1)];
      } else {
        assert down[i] == c[i - (k - 1)];
      }
    }
  }

  /** Zero bits at the bottom just move out. */
  lemma {:induction false} StepsLift(poly: Reg, c: Reg, k: nat)
    requires k <= 8 && ClearFrom(c, WIDTH - 8)
    ensures Steps(poly, Lift(c, k), k) == c
  {
    if k > 0 {
      LiftHalf(poly, c, k);
      StepsLift(poly, c, k - 1);
    } else {
      assert Lift(c, 0) == c;
    }
  }

  /** Up to eight bytes as one little-endian register value. */
  function LittleEndian(data: seq<Byte>): Reg
    decreases |data|
  {
    if data == [] then NIL else Xor(ByteReg(data[0]), Lift(LittleEndian(data[1..]), 8))
  }

  lemma {:induction false} LittleEndianClear(data: seq<Byte>)
    requires |data| <= 8
    ensures ClearFrom(LittleEndian(data), 8 * |data|)
    decreases |data|
  {
    if data != [] { LittleEndianClear(data[1..]); }
  }

  /** Feeding up to eight bytes is XORing them in together and moving them all out. */
  lemma {:induction false} FeedWord(poly: Reg, c: Reg, data: seq<Byte>)
    requires |data| <= 8
    ensures Feed(poly, c, data) == Steps(poly, Xor(c, LittleEndian(data)), 8 * |data|)
    decreases |data|
  {
    hide Xor, Steps, Lift, ByteReg, ClearFrom;
    if data == [] {
      FeedNone(poly, c);
    } else {
      var b, rest := ByteReg(data[0]), LittleEndian(data[1..]);
      FeedWord(poly, Steps(poly, Xor(c, b), 8), data[1..]);
      TailClear(data);
      StepsLift(poly, rest, 8);
      StepsXor(poly, Xor(c, b), Lift(rest, 8), 8);
      XorAssoc(c, b, Lift(rest, 8));
      StepsAdd(poly, Xor(c, LittleEndian(data)), 8, 8 * |data[1..]|);
    }
  }

  lemma FeedNone(poly: Reg, c: Reg)
    ensures c == Steps(poly, Xor(c, NIL), 0)
  {
    XorNil(c);
  }

  lemma TailClear(data: seq<Byte>)
    requires 0 < |data| <= 8
    ensures ClearFrom(LittleEndian(data[1..]), WIDTH - 8)
  {
    LittleEndianClear(data[1..]);
  }

  lemma {:induction false} FeedConcat(poly: Reg, c: Reg, a: seq<Byte>, b: seq<Byte>)
    ensures Feed(poly, c, a + b) == Feed(poly, Feed(poly, c, a), b)
    decreases |a|
  {
    hide Xor, Steps, ByteReg;
    if a == [] {
      assert a + b == b;
    } else {
      assert (a + b)[1..] == a[1..] + b;
      FeedConcat(poly, Steps(poly, Xor(c, ByteReg(a[0])), 8), a[1..], b);
    }
  }

  /** The streaming form: a checksum continued over the next piece is the checksum of the whole. */
  lemma ChecksumConcat(poly: Reg, mask: Reg, init: Reg, a: seq<Byte>, b: seq<Byte>)
    ensures Checksum(poly, mask, Checksum(poly, mask, init, a), b) == Checksum(poly, mask, init, a + b)
  {
    hide Xor, Feed;
    var s := Feed(poly, Xor(init, mask), a);
    XorAssoc(s, mask, mask);
    XorSelf(mask);
    XorNil(s);
    FeedConcat(poly, Xor(init, mask), a, b);
  }
}
