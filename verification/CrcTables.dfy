/** Table-driven CRCs: byte tables, slicing by eight, and what a CRC is guaranteed to detect. */
module CrcTables {
  import opened Crc
  import opened PowersOfTwo

  // ----- numbers and bits

  lemma {:induction false} ValueDigits(b: Bits)
    ensures Digits(Value(b), |b|) == b
  {
    if b != [] { ValueDigits(b[1..]); }
  }

  lemma {:induction false} ValueBound(b: Bits)
    ensures Value(b) < Pow2(|b|)
  {
    if b != [] { ValueBound(b[1..]); }
  }

  lemma ByteIndex(b: Byte)
    ensures Value(b) < 256 && Digits(Value(b), 8) == b
  {
    ValueDigits(b);
    ValueBound(b);
    assert Pow2(4) == 16;
    assert Pow2(8) == 256;
  }

  lemma {:induction false} DigitsZero(n: nat)
    ensures Digits(0, n) == Zeros(n)
  {
    if n > 0 { DigitsZero(n - 1); }
  }

  /** Numbers below 2^m have no digit from position m on. */
  lemma {:induction false} DigitsPad(v: nat, m: nat, n: nat)
    requires m <= n && v < Pow2(m)
    ensures Digits(v, n) == Digits(v, m) + Zeros(n - m)
    decreases m
  {
    if m == 0 {
      DigitsZero(n);
    } else {
      DigitsPad(v / 2, m - 1, n - 1);
    }
  }

  // ----- one table step is eight bit steps

  /** Shift down by one byte. */
  function Drop(c: Reg): Reg { c[8..] + Zeros(8) }

  function LowByte(c: Reg): Byte { c[..8] }

  lemma SplitByte(x: Reg)
    ensures x == Xor(ByteReg(LowByte(x)), Lift(Drop(x), 8))
    ensures ClearFrom(Drop(x), WIDTH - 8)
  {
  }

  /** Entry i of table k: byte i followed by k zero bytes. */
  ghost predicate IsTable(poly: Reg, k: nat, t: seq<Reg>) {
    |t| == 256 && forall i: nat | i < 256 :: t[i] == Steps(poly, ByteReg(Digits(i, 8)), 8 * (k + 1))
  }

  lemma Lookup(poly: Reg, k: nat, t: seq<Reg>, b: Byte)
    requires IsTable(poly, k, t)
    ensures Value(b) < 256 && t[Value(b)] == Steps(poly, ByteReg(b), 8 * (k + 1))
  {
    ByteIndex(b);
  }

  lemma TableStep(poly: Reg, t: seq<Reg>, x: Reg)
    requires IsTable(poly, 0, t)
    ensures Value(LowByte(x)) < 256
    ensures Xor(t[Value(LowByte(x))], Drop(x)) == Steps(poly, x, 8)
  {
    hide Xor, Steps, Lift, Drop, LowByte, ClearFrom, ByteReg, IsTable, Value, Digits;
    TableLength(poly, t);
    SplitByte(x);
    Lookup(poly, 0, t, LowByte(x));
    StepsXor(poly, ByteReg(LowByte(x)), Lift(Drop(x), 8), 8);
    StepsLift(poly, Drop(x), 8);
  }

  lemma DropIgnoresByte(c: Reg, b: Byte)
    ensures Drop(Xor(c, ByteReg(b))) == Drop(c)
  {
  }

  /** make_crc32_table / make_crc64_table, and table 0 of the C++ holders. */
  method BuildTable(poly: Reg) returns (t: seq<Reg>)
    ensures IsTable(poly, 0, t)
  {
    hide Xor;
    t := [];
    var i := 0;
    while i < 256
      invariant 0 <= i <= 256 && |t| == i
      invariant forall q: nat | q < i :: t[q] == Steps(poly, ByteReg(Digits(q, 8)), 8)
    {
      var c: Reg := Digits(i, WIDTH);
      SmallDigits(i);
      ghost var start := c;
      var j := 0;
      while j < 8
        invariant 0 <= j <= 8 && c == Steps(poly, start, j)
      {
        StepsAdd(poly, start, j, 1);
        StepsOne(poly, c);
        c := Step(poly, c);
        j := j + 1;
      }
      t := t + [c];
      i := i + 1;
    }
  }

  lemma StepsOne(poly: Reg, c: Reg)
    ensures Steps(poly, c, 1) == Step(poly, c)
  {
  }

  lemma SmallDigits(i: nat)
    requires i < 256
    ensures Digits(i, WIDTH) == ByteReg(Digits(i, 8))
  {
    assert Pow2(4) == 16;
    assert Pow2(8) == 256;
    DigitsPad(i, 8, WIDTH);
  }

  /** Table k from table k - 1, by one more zero byte. */
  method ExtendTable(poly: Reg, t0: seq<Reg>, k: nat, prev: seq<Reg>) returns (t: seq<Reg>)
    requires IsTable(poly, 0, t0) && k > 0 && IsTable(poly, k - 1, prev)
    ensures IsTable(poly, k, t)
  {
    hide Xor, Steps, Drop, LowByte, ByteReg, Value, Digits;
    t := [];
    var i := 0;
    while i < 256
      invariant 0 <= i <= 256 && |t| == i
      invariant forall q: nat | q < i :: t[q] == Steps(poly, ByteReg(Digits(q, 8)), 8 * (k + 1))
    {
      TableStep(poly, t0, prev[i]);
      TableEntry(poly, k - 1, prev, i);
      StepsAdd(poly, ByteReg(Digits(i, 8)), 8 * k, 8);
      t := t + [Xor(t0[Value(LowByte(prev[i]))], Drop(prev[i]))];
      i := i + 1;
    }
  }

  lemma TableEntry(poly: Reg, k: nat, t: seq<Reg>, i: nat)
    requires IsTable(poly, k, t) && i < 256
    ensures t[i] == Steps(poly, ByteReg(Digits(i, 8)), 8 * (k + 1))
  {
  }

  ghost predicate AreTables(poly: Reg, ts: seq<seq<Reg>>, n: nat) {
    |ts| == n && forall k: nat | k < n :: IsTable(poly, k, ts[k])
  }

  /** The eight tables of src/crypto/crc32.cpp and src/crypto/crc64.cpp. */
  method BuildTables(poly: Reg) returns (ts: seq<seq<Reg>>)
    ensures AreTables(poly, ts, 8)
  {
    hide IsTable;
    var t0 := BuildTable(poly);
    ts := [t0];
    var k := 1;
    while k < 8
      invariant 1 <= k <= 8 && AreTables(poly, ts, k) && ts[0] == t0
    {
      var t := ExtendTable(poly, t0, k, ts[k - 1]);
      ts := ts + [t];
      k := k + 1;
    }
  }

  // ----- the byte loop

  /** crc32 / crc64xz of tools/scan_rr.py and the leading and trailing loops of the C++ code. */
  method ByteLoop(poly: Reg, t: seq<Reg>, init: Reg, data: seq<Byte>) returns (c: Reg)
    requires IsTable(poly, 0, t)
    ensures c == Feed(poly, init, data)
  {
    hide Xor, Steps, Drop, LowByte, ByteReg, IsTable, Feed;
    c := init;
    TableLength(poly, t);
    var i := 0;
    FeedEmpty(poly, init, data);
    while i < |data|
      invariant 0 <= i <= |data| && c == Feed(poly, init, data[..i])
    {
      var x := Xor(c, ByteReg(data[i]));
      TableStep(poly, t, x);
      DropIgnoresByte(c, data[i]);
      FeedNext(poly, init, data, i);
      c := Xor(t[Value(LowByte(x))], Drop(c));
      i := i + 1;
    }
    assert data[..i] == data;
  }

  lemma TableLength(poly: Reg, t: seq<Reg>)
    requires IsTable(poly, 0, t)
    ensures |t| == 256
  {
  }

  lemma FeedEmpty(poly: Reg, c: Reg, data: seq<Byte>)
    ensures Feed(poly, c, data[..0]) == c
  {
  }

  lemma FeedNext(poly: Reg, c: Reg, data: seq<Byte>, i: nat)
    requires i < |data|
    ensures Feed(poly, c, data[..i + 1]) == Steps(poly, Xor(Feed(poly, c, data[..i]), ByteReg(data[i])), 8)
  {
    hide Xor, Steps, ByteReg;
    assert data[..i + 1] == data[..i] + [data[i]];
    FeedConcat(poly, c, data[..i], [data[i]]);
  }

  // ----- slicing by eight

  /** One table per byte, the earlier the byte the more zero bytes behind it. */
  ghost function SliceXor(ts: seq<seq<Reg>>, bs: seq<Byte>): Reg
    requires |bs| <= |ts| && forall k: nat | k < |ts| :: |ts[k]| == 256
    decreases |bs|
  {
    if bs == [] then NIL
    else
      ByteIndex(bs[0]);
      Xor(ts[|bs| - 1][Value(bs[0])], SliceXor(ts, bs[1..]))
  }

  lemma TableLengths(poly: Reg, ts: seq<seq<Reg>>)
    requires AreTables(poly, ts, 8)
    ensures forall k: nat | k < 8 :: |ts[k]| == 256
  {
  }

  lemma {:induction false} SliceIsSteps(poly: Reg, ts: seq<seq<Reg>>, bs: seq<Byte>)
    requires AreTables(poly, ts, 8) && |bs| <= 8 && forall k: nat | k < 8 :: |ts[k]| == 256
    ensures Steps(poly, LittleEndian(bs), 8 * |bs|) == SliceXor(ts, bs)
    decreases |bs|
  {
    hide Xor, Lift, ByteReg, ClearFrom, IsTable, Step;
    if bs == [] {
    } else {
      var n, rest := |bs|, LittleEndian(bs[1..]);
      SliceIsSteps(poly, ts, bs[1..]);
      Lookup(poly, n - 1, ts[n - 1], bs[0]);
      StepsXor(poly, ByteReg(bs[0]), Lift(rest, 8), 8 * n);
      TailClear(bs);
      StepsAdd(poly, Lift(rest, 8), 8, 8 * (n - 1));
      StepsLift(poly, rest, 8);
    }
  }

  /** Byte i of a register. */
  function ByteAt(x: Reg, i: nat): Byte
    requires i < 8
  {
    x[8 * i..8 * i + 8]
  }

  function RegBytes(x: Reg): seq<Byte> {
    [ByteAt(x, 0), ByteAt(x, 1), ByteAt(x, 2), ByteAt(x, 3), ByteAt(x, 4), ByteAt(x, 5), ByteAt(x, 6), ByteAt(x, 7)]
  }

  lemma {:induction false} LittleEndianAt(bs: seq<Byte>, j: nat)
    requires |bs| <= 8 && j < 8 * |bs|
    ensures LittleEndian(bs)[j] == bs[j / 8][j % 8]
    decreases |bs|
  {
    if j >= 8 {
      LittleEndianAt(bs[1..], j - 8);
      assert (j - 8) / 8 == j / 8 - 1 && (j - 8) % 8 == j % 8;
    }
  }

  lemma RegBytesRoundTrip(x: Reg)
    ensures LittleEndian(RegBytes(x)) == x
  {
    hide LittleEndian;
    var bs := RegBytes(x);
    forall j: nat | j < WIDTH ensures LittleEndian(bs)[j] == x[j] {
      LittleEndianAt(bs, j);
      var i := j / 8;
      assert bs[i] == ByteAt(x, i);
    }
  }

  /** The eight lookups of the slicing loop, for a register that holds the CRC XORed with eight message bytes. */
  method SliceLookup(poly: Reg, ts: seq<seq<Reg>>, x: Reg) returns (c: Reg)
    requires AreTables(poly, ts, 8)
    ensures c == Steps(poly, x, 64)
  {
    hide Xor, Steps, IsTable, ByteAt;
    TableLengths(poly, ts);
    RegBytesRoundTrip(x);
    SliceIsSteps(poly, ts, RegBytes(x));
    var b := RegBytes(x);
    c := SliceEight(ts, b);
    SliceEightIs(ts, b);
  }

  function Entry(t: seq<Reg>, b: Byte): Reg
    requires |t| == 256
  {
    ByteIndex(b);
    t[Value(b)]
  }

  function SliceEight(ts: seq<seq<Reg>>, b: seq<Byte>): Reg
    requires |ts| == 8 && |b| == 8 && forall k: nat | k < 8 :: |ts[k]| == 256
  {
    Xor(Entry(ts[7], b[0]), Xor(Entry(ts[6], b[1]), Xor(Entry(ts[5], b[2]), Xor(Entry(ts[4], b[3]),
      Xor(Entry(ts[3], b[4]), Xor(Entry(ts[2], b[5]), Xor(Entry(ts[1], b[6]), Entry(ts[0], b[7]))))))))
  }

  lemma SliceEightIs(ts: seq<seq<Reg>>, b: seq<Byte>)
    requires |ts| == 8 && |b| == 8 && forall k: nat | k < 8 :: |ts[k]| == 256
    ensures SliceEight(ts, b) == SliceXor(ts, b)
  {
    hide Xor, Value;
    assert b[1..][1..] == b[2..] && b[2..][1..] == b[3..] && b[3..][1..] == b[4..] && b[4..][1..] == b[5..];
    assert b[5..][1..] == b[6..] && b[6..][1..] == b[7..] && b[7..][1..] == [];
    XorNil(Entry(ts[0], b[7]));
    assert SliceXor(ts, b[7..]) == Entry(ts[0], b[7]);
    assert SliceXor(ts, b[6..]) == Xor(Entry(ts[1], b[6]), Entry(ts[0], b[7]));
    assert SliceXor(ts, b[4..]) == Xor(Entry(ts[3], b[4]), Xor(Entry(ts[2], b[5]), SliceXor(ts, b[6..])));
    assert SliceXor(ts, b[2..]) == Xor(Entry(ts[5], b[2]), Xor(Entry(ts[4], b[3]), SliceXor(ts, b[4..])));
    assert SliceXor(ts, b) == Xor(Entry(ts[7], b[0]), Xor(Entry(ts[6], b[1]), SliceXor(ts, b[2..])));
  }

  /** crc32_step and crc64_update_slice8: `lead` bytes up to the alignment boundary, eight at a time, then the tail. */
  method SliceLoop(poly: Reg, ts: seq<seq<Reg>>, init: Reg, data: seq<Byte>, lead: nat) returns (c: Reg)
    requires AreTables(poly, ts, 8)
    ensures c == Feed(poly, init, data)
  {
    hide Xor, Steps, IsTable, Feed, LittleEndian;
    var p := if lead < |data| then lead else |data|;
    c := ByteLoop(poly, ts[0], init, data[..p]);
    while |data| - p >= 8
      invariant 0 <= p <= |data| && c == Feed(poly, init, data[..p])
      decreases |data| - p
    {
      var chunk := data[p..p + 8];
      FeedWord(poly, c, chunk);
      FeedConcat(poly, init, data[..p], chunk);
      assert data[..p + 8] == data[..p] + chunk;
      c := SliceLookup(poly, ts, Xor(c, LittleEndian(chunk)));
      p := p + 8;
    }
    FeedConcat(poly, init, data[..p], data[p..]);
    assert data == data[..p] + data[p..];
    c := ByteLoop(poly, ts[0], c, data[p..]);
  }

  lemma ByteBit(x: Reg, i: nat, k: nat)
    requires i < 8 && k < 8
    ensures ByteAt(x, i)[k] == x[8 * i + k]
  {
  }

  lemma XorBit(a: Reg, b: Reg, j: nat)
    requires j < WIDTH
    ensures Xor(a, b)[j] == (a[j] != b[j])
  {
  }

  lemma PlaceOfBit(i: nat, k: nat)
    requires k < 8
    ensures (8 * i + k) / 8 == i && (8 * i + k) % 8 == k
  {
  }

  lemma ClearHalfIsData(c: Reg, chunk: seq<Byte>, i: nat)
    requires ClearFrom(c, 32) && |chunk| == 8 && 4 <= i < 8
    ensures ByteAt(Xor(c, LittleEndian(chunk)), i) == chunk[i]
  {
    hide LittleEndian, Xor, ByteAt;
    var m := LittleEndian(chunk);
    var x := Xor(c, m);
    forall k: nat | k < 8 ensures ByteAt(x, i)[k] == chunk[i][k] {
      LittleEndianAt(chunk, 8 * i + k);
      PlaceOfBit(i, k);
      ByteBit(x, i, k);
      XorBit(c, m, 8 * i + k);
    }
  }

  // ----- what a CRC detects

  /** A register of `w` bits: nothing above, and a polynomial that reaches the top bit. */
  ghost predicate HasWidth(poly: Reg, w: nat) {
    0 < w <= WIDTH && poly[w - 1] && ClearFrom(poly, w)
  }

  lemma StepInjective(poly: Reg, w: nat, a: Reg, b: Reg)
    requires HasWidth(poly, w) && ClearFrom(a, w) && ClearFrom(b, w)
    ensures ClearFrom(Step(poly, a), w)
    ensures Step(poly, a) == Step(poly, b) ==> a == b
  {
    assert !Half(a)[w - 1] && !Half(b)[w - 1];
    assert Step(poly, a)[w - 1] == a[0] && Step(poly, b)[w - 1] == b[0];
    if Step(poly, a) == Step(poly, b) {
      if a[0] { XorCancel(Half(a), Half(b), poly); }
      assert Half(a) == Half(b);
      assert a[1..] == Half(a)[..WIDTH - 1] && b[1..] == Half(b)[..WIDTH - 1];
      assert a == [a[0]] + a[1..] && b == [b[0]] + b[1..];
    }
  }

  lemma {:induction false} StepsInjective(poly: Reg, w: nat, a: Reg, b: Reg, n: nat)
    requires HasWidth(poly, w) && ClearFrom(a, w) && ClearFrom(b, w)
    ensures ClearFrom(Steps(poly, a, n), w)
    ensures Steps(poly, a, n) == Steps(poly, b, n) ==> a == b
    decreases n
  {
    hide Step, HasWidth, ClearFrom;
    if n > 0 {
      StepInjective(poly, w, a, b);
      StepInjective(poly, w, b, a);
      StepsInjective(poly, w, Step(poly, a), Step(poly, b), n - 1);
    }
  }

  lemma XorClear(a: Reg, b: Reg, n: nat)
    requires ClearFrom(a, n) && ClearFrom(b, n)
    ensures ClearFrom(Xor(a, b), n)
  {
  }

  /** Different windows of at most `w` bits leave different registers. */
  lemma WindowInjective(poly: Reg, w: nat, c: Reg, a: seq<Byte>, b: seq<Byte>)
    requires HasWidth(poly, w) && ClearFrom(c, w)
    requires |a| == |b| <= 8 && 8 * |a| <= w && a != b
    ensures Feed(poly, c, a) != Feed(poly, c, b)
  {
    hide Xor, Steps, LittleEndian, ClearFrom, HasWidth, Feed;
    FeedWord(poly, c, a);
    FeedWord(poly, c, b);
    LittleEndianWidth(a, w);
    LittleEndianWidth(b, w);
    XorClear(c, LittleEndian(a), w);
    XorClear(c, LittleEndian(b), w);
    StepsInjective(poly, w, Xor(c, LittleEndian(a)), Xor(c, LittleEndian(b)), 8 * |a|);
    XorComm(c, LittleEndian(a));
    XorComm(c, LittleEndian(b));
    if Feed(poly, c, a) == Feed(poly, c, b) {
      XorCancel(LittleEndian(a), LittleEndian(b), c);
      LittleEndianInjective(a, b);
    }
  }

  lemma LittleEndianWidth(a: seq<Byte>, w: nat)
    requires |a| <= 8 && 8 * |a| <= w
    ensures ClearFrom(LittleEndian(a), w)
  {
    LittleEndianClear(a);
  }

  lemma LittleEndianInjective(a: seq<Byte>, b: seq<Byte>)
    requires |a| == |b| <= 8 && LittleEndian(a) == LittleEndian(b)
    ensures a == b
  {
    hide LittleEndian;
    forall i: nat | i < |a| ensures a[i] == b[i] {
      forall k: nat | k < 8 ensures a[i][k] == b[i][k] {
        LittleEndianAt(a, 8 * i + k);
        LittleEndianAt(b, 8 * i + k);
        assert (8 * i + k) / 8 == i && (8 * i + k) % 8 == k;
      }
    }
  }

  lemma ByteRegWidth(b: Byte, w: nat)
    requires 8 <= w
    ensures ClearFrom(ByteReg(b), w)
  {
  }

  /** Feeding equal bytes keeps different registers different. */
  lemma {:induction false} FeedInjective(poly: Reg, w: nat, a: Reg, b: Reg, data: seq<Byte>)
    requires HasWidth(poly, w) && 8 <= w && ClearFrom(a, w) && ClearFrom(b, w)
    ensures ClearFrom(Feed(poly, a, data), w)
    ensures Feed(poly, a, data) == Feed(poly, b, data) ==> a == b
    decreases |data|
  {
    hide Xor, Steps, ClearFrom, HasWidth, ByteReg;
    if data != [] {
      var m := ByteReg(data[0]);
      ByteRegWidth(data[0], w);
      XorClear(a, m, w);
      XorClear(b, m, w);
      StepsInjective(poly, w, Xor(a, m), Xor(b, m), 8);
      StepsInjective(poly, w, Xor(b, m), Xor(a, m), 8);
      FeedInjective(poly, w, Steps(poly, Xor(a, m), 8), Steps(poly, Xor(b, m), 8), data[1..]);
      if Xor(a, m) == Xor(b, m) { XorCancel(a, b, m); }
    }
  }

  /** Burst detection: messages that differ only inside a window of w / 8 bytes never share a checksum. */
  lemma BurstDetected(poly: Reg, mask: Reg, w: nat, pre: seq<Byte>, a: seq<Byte>, b: seq<Byte>, post: seq<Byte>)
    requires HasWidth(poly, w) && 8 <= w && ClearFrom(mask, w)
    requires |a| == |b| <= 8 && 8 * |a| <= w && a != b
    ensures Checksum(poly, mask, NIL, pre + a + post) != Checksum(poly, mask, NIL, pre + b + post)
  {
    hide Xor, Steps, HasWidth, Feed;
    var start := Xor(NIL, mask);
    XorNil(mask);
    FeedInjective(poly, w, start, start, pre);
    var c := Feed(poly, start, pre);
    WindowInjective(poly, w, c, a, b);
    FeedInjective(poly, w, c, c, a);
    FeedInjective(poly, w, c, c, b);
    var ca, cb := Feed(poly, c, a), Feed(poly, c, b);
    FeedInjective(poly, w, ca, cb, post);
    FeedConcat(poly, start, pre, a);
    FeedConcat(poly, start, pre, b);
    FeedConcat(poly, start, pre + a, post);
    FeedConcat(poly, start, pre + b, post);
    if Xor(Feed(poly, ca, post), mask) == Xor(Feed(poly, cb, post), mask) {
      XorCancel(Feed(poly, ca, post), Feed(poly, cb, post), mask);
    }
  }

  // ----- the two checksums

  lemma {:induction false} DigitAt(v: nat, n: nat, i: nat)
    requires i < n
    ensures Digits(v, n)[i] <==> (v / Pow2(i)) % 2 == 1
  {
    if i > 0 {
      DigitAt(v / 2, n - 1, i - 1);
      HalfQuotient(v, Pow2(i - 1));
    }
  }

  lemma HalfQuotient(v: nat, p: nat)
    requires p > 0
    ensures (v / 2) / p == v / (2 * p)
  {
    var q := v / (2 * p);
    var r := v % (2 * p);
    assert v == 2 * p * q + r;
    assert v / 2 == p * q + r / 2;
    assert r / 2 < p;
    QuotientUnique(v / 2, p, q, r / 2);
  }

  lemma Powers()
    ensures Pow2(31) == 0x80000000 && Pow2(32) == 0x100000000 && Pow2(63) == 0x8000000000000000
  {
    assert Pow2(8) == 256;
    assert Pow2(16) == 65536;
    assert Pow2(24) == 0x1000000;
    assert Pow2(31) == 0x80000000;
    assert Pow2(40) == 0x10000000000;
    assert Pow2(48) == 0x1000000000000;
    assert Pow2(56) == 0x100000000000000;
  }

  lemma Width32()
    ensures HasWidth(POLY32, 32) && ClearFrom(MASK32, 32)
  {
    hide Pow2, Digits;
    Powers();
    DigitAt(0xEDB88320, WIDTH, 31);
    DigitsPad(0xEDB88320, 32, WIDTH);
    DigitsPad(0xFFFFFFFF, 32, WIDTH);
  }

  /** Whatever was read before, the upper four bytes that CRC-32 slices are the plain message bytes. */
  lemma HighHalfIsData(init: Reg, data: seq<Byte>, chunk: seq<Byte>, i: nat)
    requires ClearFrom(init, 32) && |chunk| == 8 && 4 <= i < 8
    ensures ByteAt(Xor(Feed(POLY32, init, data), LittleEndian(chunk)), i) == chunk[i]
  {
    hide Xor, Feed, LittleEndian, HasWidth, ClearFrom;
    Width32();
    FeedInjective(POLY32, 32, init, init, data);
    ClearHalfIsData(Feed(POLY32, init, data), chunk, i);
  }

  lemma Width64()
    ensures HasWidth(POLY64, 64) && ClearFrom(MASK64, 64)
  {
    hide Pow2, Digits;
    Powers();
    DigitAt(0xC96C5795D7870F42, WIDTH, 63);
  }

  function Crc32(data: seq<Byte>): Reg { Checksum(POLY32, MASK32, NIL, data) }

  function Crc64Xz(data: seq<Byte>): Reg { Checksum(POLY64, MASK64, NIL, data) }

  /** Four damaged bytes in a row always change CRC-32, eight always change CRC-64/XZ. */
  lemma BurstsDetected(pre: seq<Byte>, a: seq<Byte>, b: seq<Byte>, post: seq<Byte>)
    requires |a| == |b| && a != b
    ensures |a| <= 4 ==> Crc32(pre + a + post) != Crc32(pre + b + post)
    ensures |a| <= 8 ==> Crc64Xz(pre + a + post) != Crc64Xz(pre + b + post)
  {
    hide Checksum, HasWidth, ClearFrom;
    Width32();
    Width64();
    if |a| <= 4 { BurstDetected(POLY32, MASK32, 32, pre, a, b, post); }
    if |a| <= 8 { BurstDetected(POLY64, MASK64, 64, pre, a, b, post); }
  }
}
