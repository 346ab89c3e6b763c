/** scan_blocks of tools/scan_table_reuse.py: the walk over checksummed compression blocks. */
module BlockChain {
  import opened ByteStrings
  import opened ByteWords

  function Number(v: bv8): byte { v as int }

  function Xor8(u: bv8, v: bv8): bv8 { u ^ v }

  function XorByte(a: byte, b: byte): byte { Number(Xor8(ByteOf(a), ByteOf(b))) }

  /** Bytes of the size field. */
  function SizeBytes(flags: byte): nat { flags / 8 % 4 + 1 }

  /** A little-endian number of n bytes. */
  function Little(d: Bytes, off: nat, n: nat): nat
    requires off + n <= |d|
  {
    if n == 0 then 0 else Little(d, off, n - 1) + d[off + n - 1] * Power256(n - 1)
  }

  function Power256(n: nat): nat { if n == 0 then 1 else 256 * Power256(n - 1) }

  function Checksum(flags: byte, size: nat): byte {
    XorByte(XorByte(XorByte(XorByte(0x5A, flags), size % 256), size / 256 % 256), size / 65536 % 256)
  }

  // ----- The checksum rule

  lemma BitsAndBack(a: byte)
    ensures Number(ByteOf(a)) == a
  {
    ByteValue(a);
  }

  lemma NumberAndBack(v: bv8)
    ensures ByteOf(Number(v)) == v
  {
    hide ByteOf;
    ByteValue(Number(v));
    ByteInjective(ByteOf(Number(v)), v);
  }

  /** All bytes XORed together. */
  function XorAll(h: Bytes): byte { if h == [] then 0 else XorByte(h[0], XorAll(h[1..])) }

  /** A header checks out exactly when its bytes XOR to 0x5A. */
  lemma ChecksumLaw(h: Bytes)
    requires 3 <= |h| <= 5
    ensures h[1] == Checksum(h[0], Little(h, 2, |h| - 2)) <==> XorAll(h) == 0x5A
  {
    hide XorByte, XorAll;
    SizeDigits(h);
    var s1, s2 := if |h| > 3 then h[3] else 0, if |h| > 4 then h[4] else 0;
    XorAllIs(h, s1, s2);
    XorTurn(h[1], h[0], h[2], s1, s2);
  }

  lemma SizeDigits(h: Bytes)
    requires 3 <= |h| <= 5
    ensures var size := Little(h, 2, |h| - 2);
      && size % 256 == h[2]
      && size / 256 % 256 == (if |h| > 3 then h[3] else 0) && size / 65536 % 256 == (if |h| > 4 then h[4] else 0)
  {
    hide Power256, Little;
    var s0, s1, s2 := h[2], if |h| > 3 then h[3] else 0, if |h| > 4 then h[4] else 0;
    Powers();
    LittleNext(h, 0);
    LittleNext(h, 1);
    if |h| > 4 { LittleNext(h, 2); }
    ThreeDigits(s0, s1, s2);
  }

  lemma LittleNext(h: Bytes, n: nat)
    ensures Little(h, |h|, 0) == 0
    ensures 2 + n < |h| ==> Little(h, 2, n + 1) == (if n == 0 then 0 else Little(h, 2, n)) + h[2 + n] * Power256(n)
  {
  }

  lemma ThreeDigits(s0: nat, s1: nat, s2: nat)
    requires s0 < 256 && s1 < 256 && s2 < 256
    ensures (s0 + s1 * 256 + s2 * 65536) % 256 == s0
    ensures (s0 + s1 * 256 + s2 * 65536) / 256 % 256 == s1
    ensures (s0 + s1 * 256 + s2 * 65536) / 65536 % 256 == s2
  {
  }

  lemma Powers()
    ensures Power256(0) == 1 && Power256(1) == 256 && Power256(2) == 65536
  {
  }

  lemma XorZero(a: byte)
    ensures XorByte(a, 0) == a
  {
    hide Number;
    BitsAndBack(a);
  }

  lemma XorAllStep(h: Bytes)
    requires h != []
    ensures XorAll(h) == XorByte(h[0], XorAll(h[1..])) && XorAll([]) == 0
  {
  }

  lemma XorAllIs(h: Bytes, s1: byte, s2: byte)
    requires 3 <= |h| <= 5 && s1 == (if |h| > 3 then h[3] else 0) && s2 == (if |h| > 4 then h[4] else 0)
    ensures XorAll(h) == XorByte(h[0], XorByte(h[1], XorByte(h[2], XorByte(s1, s2))))
  {
    hide XorByte, XorAll;
    XorZero(s1);
    XorZero(s2);
    XorZero(0);
    assert h[1..][1..] == h[2..] && h[2..][1..] == h[3..];
    XorAllStep(h);
    XorAllStep(h[1..]);
    XorAllStep(h[2..]);
    if |h| > 3 {
      assert h[3..][1..] == h[4..];
      XorAllStep(h[3..]);
    }
    if |h| > 4 {
      assert h[4..][1..] == [];
      XorAllStep(h[4..]);
    }
  }

  lemma XorTurn(c: byte, f: byte, s0: byte, s1: byte, s2: byte)
    ensures c == XorByte(XorByte(XorByte(XorByte(0x5A, f), s0), s1), s2) <==>
      XorByte(f, XorByte(c, XorByte(s0, XorByte(s1, s2)))) == 0x5A
  {
    hide ByteOf, Number, Xor8;
    var k, vc, vf, v0, v1, v2 := ByteOf(0x5A), ByteOf(c), ByteOf(f), ByteOf(s0), ByteOf(s1),
      ByteOf(s2);
    var a1 := Xor8(k, vf);
    var a2 := Xor8(a1, v0);
    var a3 := Xor8(a2, v1);
    var b1 := Xor8(v1, v2);
    var b2 := Xor8(v0, b1);
    var b3 := Xor8(vc, b2);
    NumberAndBack(a1);
    NumberAndBack(a2);
    NumberAndBack(a3);
    NumberAndBack(Xor8(a3, v2));
    NumberAndBack(b1);
    NumberAndBack(b2);
    NumberAndBack(b3);
    NumberAndBack(Xor8(vf, b3));
    BitsAndBack(c);
    BitsAndBack(0x5A);
    Turn8(k, vc, vf, v0, v1, v2);
  }

  lemma Turn8(k: bv8, c: bv8, f: bv8, s0: bv8, s1: bv8, s2: bv8)
    ensures c == Xor8(Xor8(Xor8(Xor8(k, f), s0), s1), s2) <==> Xor8(f, Xor8(c, Xor8(s0, Xor8(s1, s2)))) == k
  {
    hide *;
    var s := Xor8(f, Xor8(s0, Xor8(s1, s2)));
    GatherLeft(k, f, s0, s1, s2);
    GatherRight(c, f, Xor8(s0, Xor8(s1, s2)));
    Over(c, k, s);
  }

  lemma XorIs(a: bv8, b: bv8)
    ensures Xor8(a, b) == a ^ b
  {
  }

  lemma XorGroups(a: bv8, b: bv8, c: bv8)
    ensures Xor8(Xor8(a, b), c) == Xor8(a, Xor8(b, c))
  {
    hide Xor8;
    XorIs(a, b);
    XorIs(b, c);
    XorIs(a ^ b, c);
    XorIs(a, b ^ c);
  }

  lemma XorSwaps(a: bv8, b: bv8)
    ensures Xor8(a, b) == Xor8(b, a)
  {
  }

  lemma XorUndone(a: bv8)
    ensures Xor8(a, a) == 0 && Xor8(a, 0) == a
  {
  }

  lemma GatherLeft(k: bv8, f: bv8, s0: bv8, s1: bv8, s2: bv8)
    ensures Xor8(Xor8(Xor8(Xor8(k, f), s0), s1), s2) == Xor8(k, Xor8(f, Xor8(s0, Xor8(s1, s2))))
  {
    hide *;
    XorGroups(Xor8(Xor8(k, f), s0), s1, s2);
    XorGroups(Xor8(k, f), s0, Xor8(s1, s2));
    XorGroups(k, f, Xor8(s0, Xor8(s1, s2)));
  }

  lemma GatherRight(c: bv8, f: bv8, s: bv8)
    ensures Xor8(f, Xor8(c, s)) == Xor8(c, Xor8(f, s))
  {
    hide *;
    XorGroups(f, c, s);
    XorSwaps(f, c);
    XorGroups(c, f, s);
  }

  lemma Over(c: bv8, k: bv8, s: bv8)
    ensures c == Xor8(k, s) <==> Xor8(c, s) == k
  {
    hide *;
    XorGroups(k, s, s);
    XorGroups(c, s, s);
    XorUndone(s);
    XorUndone(k);
    XorUndone(c);
  }

  // ----- What a block is

  /** A header, then as many bytes as its size field says; the field takes at most three bytes and the checksum
      holds. */
  predicate IsBlock(b: Bytes) {
    && |b| >= 2 && SizeBytes(b[0]) <= 3 && |b| >= 2 + SizeBytes(b[0])
    && |b| == 2 + SizeBytes(b[0]) + Little(b, 2, SizeBytes(b[0]))
    && b[1] == Checksum(b[0], Little(b, 2, SizeBytes(b[0])))
  }

  /** A block whose size field is zero. */
  predicate Empty(b: Bytes)
    requires IsBlock(b)
  {
    |b| == 2 + SizeBytes(b[0])
  }

  /** Blocks one after the other, none of them empty. */
  predicate Full(blocks: seq<Bytes>) { forall i :: 0 <= i < |blocks| ==> IsBlock(blocks[i]) && !Empty(blocks[i]) }

  /** A whole chain: only the last block may be empty. */
  predicate Chain(blocks: seq<Bytes>) {
    Full(blocks) || (blocks != [] && Full(blocks[..|blocks| - 1]) && IsBlock(blocks[|blocks| - 1]))
  }

  datatype Counts = Counts(total: nat, reused: nat, bitSizes: map<nat, nat>)

  function Count(c: Counts, flags: byte): Counts {
    var bits := flags % 8 + 1;
    Counts(c.total + 1, if flags < 128 then c.reused + 1 else c.reused,
           c.bitSizes[bits := (if bits in c.bitSizes then c.bitSizes[bits] else 0) + 1])
  }

  /** What a list of blocks is counted as. */
  function CountAll(flags: seq<byte>): Counts {
    if flags == [] then Counts(0, 0, map[]) else Count(CountAll(flags[..|flags| - 1]), flags[|flags| - 1])
  }

  /** The places whose flags have the property. */
  ghost function Where(flags: seq<byte>, p: byte -> bool): set<nat> { set i: nat | i < |flags| && p(flags[i]) }

  predicate Reuses(b: byte) { ByteOf(b) & 0x80 == 0 }

  function HasBits(k: nat): byte -> bool { (b: byte) => (ByteOf(b) & 7) as nat + 1 == k }

  lemma RawReuse(v: bv8)
    ensures v & 0x80 == 0 <==> Number(v) < 128
  {
  }

  lemma RawLow(v: bv8)
    ensures (v & 7) as nat == Number(v) % 8
  {
  }

  lemma RawMiddle(v: bv8)
    ensures ((v >> 3) & 3) as nat == Number(v) / 8 % 4
  {
  }

  /** The flags byte: reuse in bit 7, the width of the size field in bits 3 and 4, the bit size in bits 0 to 2. */
  lemma FlagBits(b: byte)
    ensures Reuses(b) <==> b < 128
    ensures (ByteOf(b) & 7) as nat == b % 8
    ensures SizeBytes(b) == ((ByteOf(b) >> 3) & 3) as nat + 1
  {
    hide ByteOf, Number;
    RawReuse(ByteOf(b));
    RawLow(ByteOf(b));
    RawMiddle(ByteOf(b));
    BitsAndBack(b);
  }

  lemma WhereSnoc(flags: seq<byte>, b: byte, p: byte -> bool)
    ensures |Where(flags + [b], p)| == |Where(flags, p)| + if p(b) then 1 else 0
  {
    var all := flags + [b];
    assert Where(all, p) == Where(flags, p) + (if p(b) then {|flags|} else {});
  }

  /** What the counts are: all blocks, those whose reuse bit 0x80 is clear, and those of each bit size. */
  lemma {:induction false} CountsMeaning(flags: seq<byte>, k: nat)
    ensures var c := CountAll(flags);
      && c.total == |flags| && c.reused == |Where(flags, Reuses)|
      && (if k in c.bitSizes then c.bitSizes[k] else 0) == |Where(flags, HasBits(k))|
  {
    hide Reuses;
    if flags == [] {
      assert Where(flags, Reuses) == {} && Where(flags, HasBits(k)) == {};
    } else {
      var most, b := flags[..|flags| - 1], flags[|flags| - 1];
      assert flags == most + [b];
      CountsMeaning(most, k);
      FlagBits(b);
      WhereSnoc(most, b, Reuses);
      WhereSnoc(most, b, HasBits(k));
    }
  }

  predicate AllBlocks(blocks: seq<Bytes>) { forall i :: 0 <= i < |blocks| ==> IsBlock(blocks[i]) }

  function FlagsOf(blocks: seq<Bytes>): seq<byte>
    requires AllBlocks(blocks)
  {
    seq(|blocks|, i requires 0 <= i < |blocks| => blocks[i][0])
  }

  // ----- The scan

  datatype Verdict = Aligned | Truncated | Unreliable | BadChecksum

  /** A checksummed header at off, inside the range, as the scan reads it. */
  predicate HeaderAt(d: Bytes, off: nat, end: nat)
    requires end <= |d|
  {
    && off + 2 <= end && SizeBytes(d[off]) <= 3 && off + 2 + SizeBytes(d[off]) <= end
    && Little(d, off + 2, SizeBytes(d[off])) <= end - off
    && d[off + 1] == Checksum(d[off], Little(d, off + 2, SizeBytes(d[off])))
  }

  /** Where the block at off ends. */
  function After(d: Bytes, off: nat, end: nat): nat
    requires end <= |d| && HeaderAt(d, off, end)
  {
    off + 2 + SizeBytes(d[off]) + Little(d, off + 2, SizeBytes(d[off]))
  }

  lemma {:induction false} LittleMoves(d: Bytes, off: nat, w: Bytes, pos: nat, n: nat)
    requires HasAt(d, off, w) && pos + n <= |w|
    ensures Little(d, off + pos, n) == Little(w, pos, n)
    decreases n
  {
    if n > 0 {
      LittleMoves(d, off, w, pos, n - 1);
      assert d[off + pos + n - 1] == d[off..off + |w|][pos + n - 1];
    }
  }

  /** A block inside the range has a header the scan accepts, and ends where the scan says. */
  lemma BlockHasHeader(d: Bytes, off: nat, end: nat, b: Bytes)
    requires end <= |d| && IsBlock(b) && HasAt(d, off, b) && off + |b| <= end
    ensures HeaderAt(d, off, end) && After(d, off, end) == off + |b| && d[off] == b[0]
    ensures Little(d, off + 2, SizeBytes(b[0])) == 0 <==> Empty(b)
  {
    hide Little, Checksum;
    assert d[off] == d[off..off + |b|][0] && d[off + 1] == d[off..off + |b|][1];
    LittleMoves(d, off, b, 2, SizeBytes(b[0]));
  }

  /** A header whose block ends inside the range heads a block. */
  lemma HeaderHasBlock(d: Bytes, off: nat, end: nat)
    requires end <= |d| && HeaderAt(d, off, end) && After(d, off, end) <= end
    ensures IsBlock(d[off..After(d, off, end)])
    ensures Empty(d[off..After(d, off, end)]) <==> Little(d, off + 2, SizeBytes(d[off])) == 0
    ensures d[off..After(d, off, end)][0] == d[off]
  {
    hide Little, Checksum;
    var b := d[off..After(d, off, end)];
    LittleMoves(d, off, b, 2, SizeBytes(d[off]));
  }

  /** Headers found one after the other, from `base` to `off`. */
  ghost predicate Walked(d: Bytes, base: nat, end: nat, starts: seq<nat>, off: nat)
    requires end <= |d|
  {
    if starts == [] then off == base
    else
      var last := starts[|starts| - 1];
      HeaderAt(d, last, end) && off == After(d, last, end) && Walked(d, base, end, starts[..|starts| - 1], last)
  }

  /** The size field of the header at off, 0 where none can be read. */
  function SizeAt(d: Bytes, off: nat): nat {
    if off + 2 <= |d| && off + 2 + SizeBytes(d[off]) <= |d| then Little(d, off + 2, SizeBytes(d[off])) else 0
  }

  /** None of the blocks at these places is empty. */
  ghost predicate FullStarts(d: Bytes, starts: seq<nat>) { forall i :: 0 <= i < |starts| ==> SizeAt(d, starts[i]) != 0 }

  lemma FullStartsMore(d: Bytes, starts: seq<nat>, off: nat)
    requires FullStarts(d, starts) && SizeAt(d, off) != 0
    ensures FullStarts(d, starts + [off])
  {
    hide SizeAt;
  }

  /** No header can be read at off, or it announces more than the range has left. */
  predicate HeaderCut(d: Bytes, off: nat, end: nat)
    requires end <= |d|
  {
    || off + 2 > end || off + 2 + SizeBytes(d[off]) > end
    || SizeBytes(d[off]) == 4 || Little(d, off + 2, SizeBytes(d[off])) > end - off
  }

  /** The walk goes no further than off: why, and which verdict that gives. */
  ghost predicate Ends(d: Bytes, end: nat, starts: seq<nat>, off: nat, allowTruncatedTail: bool, v: Verdict)
    requires end <= |d|
  {
    && (starts != [] ==> FullStarts(d, starts[..|starts| - 1]))
    && (off == end ==> v == Aligned)
    && (off > end ==> v == Unreliable)
    && (off < end && !FullStarts(d, starts) ==> v == Unreliable)
    && (off < end && FullStarts(d, starts) ==>
          && !HeaderAt(d, off, end)
          && v == if HeaderCut(d, off, end) then (if allowTruncatedTail then Truncated else Unreliable)
              else BadChecksum)
  }

  /** The first bytes of the blocks that start at the given places. */
  function FlagsAt(d: Bytes, starts: seq<nat>): seq<byte> {
    seq(|starts|, i requires 0 <= i < |starts| => if starts[i] < |d| then d[starts[i]] else 0)
  }

  method ReadSize(d: Bytes, off: nat, n: nat) returns (size: nat)
    requires off + n <= |d|
    ensures size == Little(d, off, n)
  {
    size := 0;
    var power: nat := 1;
    for i := 0 to n
      invariant size == Little(d, off, i) && power == Power256(i)
    {
      size := size + d[off + i] * power;
      power := power * 256;
    }
  }

  // ----- Chains of a range

  lemma ConcatStep(blocks: seq<Bytes>, k: nat)
    requires k < |blocks|
    ensures Concat(blocks[..k + 1]) == Concat(blocks[..k]) + blocks[k]
  {
    ConcatSnoc(blocks[..k], blocks[k]);
    assert blocks[..k + 1] == blocks[..k] + [blocks[k]];
  }

  lemma {:induction false} ConcatPrefix(blocks: seq<Bytes>, k: nat)
    requires k <= |blocks|
    ensures Concat(blocks[..k]) <= Concat(blocks)
    decreases |blocks| - k
  {
    if k == |blocks| {
      assert blocks[..k] == blocks;
    } else {
      ConcatStep(blocks, k);
      ConcatPrefix(blocks, k + 1);
    }
  }

  lemma ChainBlock(w: seq<Bytes>, k: nat)
    requires Chain(w) && k < |w|
    ensures IsBlock(w[k]) && (k + 1 < |w| ==> !Empty(w[k]))
  {
    if k + 1 < |w| { assert w[k] == w[..|w| - 1][k]; }
  }

  /** What the next block of a chain looks like from where the first k blocks end. */
  lemma NextBlock(w: seq<Bytes>, k: nat, d: Bytes, base: nat, off: nat, end: nat)
    requires Chain(w) && base <= off < end <= |d| && Concat(w) == d[base..end]
    requires k <= |w| && Concat(w[..k]) == d[base..off]
    ensures k < |w| && IsBlock(w[k]) && HasAt(d, off, w[k]) && off + |w[k]| <= end
    ensures Concat(w[..k + 1]) == d[base..off + |w[k]|]
    ensures k + 1 < |w| ==> !Empty(w[k])
    ensures k + 1 == |w| ==> off + |w[k]| == end
  {
    hide IsBlock, Empty;
    assert w[..|w|] == w;
    ChainBlock(w, k);
    ConcatStep(w, k);
    ConcatPrefix(w, k + 1);
    var upto := Concat(w[..k + 1]);
    assert upto == d[base..end][..|upto|] == d[base..base + |upto|];
    assert w[k] == upto[off - base..] == d[off..base + |upto|];
  }

  /** A range has at most one chain. */
  lemma {:induction false} ChainUniqueFrom(v: seq<Bytes>, w: seq<Bytes>, k: nat)
    requires Chain(v) && Chain(w) && Concat(v) == Concat(w)
    requires k <= |v| && k <= |w| && v[..k] == w[..k]
    ensures v == w
    decreases |v| - k
  {
    hide IsBlock, Empty, Chain;
    var d := Concat(v);
    var off := |Concat(v[..k])|;
    ConcatPrefix(v, k);
    assert d[0..|d|] == d;
    assert v[..|v|] == v && w[..|w|] == w;
    if off < |d| {
      NextBlock(v, k, d, 0, off, |d|);
      NextBlock(w, k, d, 0, off, |d|);
      SameBlock(d, off, v[k], w[k]);
      assert v[..k + 1] == w[..k + 1];
      ChainUniqueFrom(v, w, k + 1);
    } else {
      EndsHere(v, k);
      EndsHere(w, k);
    }
  }

  lemma SameBlock(d: Bytes, off: nat, a: Bytes, b: Bytes)
    requires IsBlock(a) && IsBlock(b) && HasAt(d, off, a) && HasAt(d, off, b)
    ensures a == b
  {
    hide IsBlock, HeaderAt, After, Little;
    BlockHasHeader(d, off, |d|, a);
    BlockHasHeader(d, off, |d|, b);
  }

  /** Blocks are not empty strings, so a chain that has given all its bytes has no block left. */
  lemma EndsHere(w: seq<Bytes>, k: nat)
    requires Chain(w) && k <= |w| && |Concat(w[..k])| == |Concat(w)|
    ensures k == |w|
  {
    if k < |w| {
      ConcatStep(w, k);
      ConcatPrefix(w, k + 1);
      ChainBlock(w, k);
      assert false;
    }
  }

  lemma ChainUnique(v: seq<Bytes>, w: seq<Bytes>)
    requires Chain(v) && Chain(w) && Concat(v) == Concat(w)
    ensures v == w
  {
    ChainUniqueFrom(v, w, 0);
  }

  ghost predicate ChainOf(blocks: seq<Bytes>, d: Bytes, base: nat, end: nat)
    requires base <= end <= |d|
  {
    Chain(blocks) && Concat(blocks) == d[base..end]
  }

  // ----- The scan against chains

  /** The blocks counted so far, as strings; `w` is the chain of the range, if it has one. */
  ghost predicate Progress(d: Bytes, base: nat, end: nat, off: nat, blocks: seq<Bytes>, starts: seq<nat>, c: Counts,
      w: seq<Bytes>)
    requires base <= end <= |d|
  {
    && base <= off <= end && Full(blocks) && AllBlocks(blocks) && Concat(blocks) == d[base..off]
    && Walked(d, base, end, starts, off) && FullStarts(d, starts)
    && c == CountAll(FlagsAt(d, starts)) && FlagsOf(blocks) == FlagsAt(d, starts)
    && (ChainOf(w, d, base, end) ==> blocks <= w)
  }

  lemma Begins(d: Bytes, base: nat, end: nat, w: seq<Bytes>)
    requires base <= end <= |d|
    ensures Progress(d, base, end, base, [], [], Counts(0, 0, map[]), w)
  {
    assert d[base..base] == [];
  }

  lemma WalkedMore(d: Bytes, base: nat, end: nat, starts: seq<nat>, off: nat)
    requires end <= |d| && Walked(d, base, end, starts, off) && HeaderAt(d, off, end)
    ensures Walked(d, base, end, starts + [off], After(d, off, end))
    ensures FlagsAt(d, starts + [off]) == FlagsAt(d, starts) + [d[off]]
    ensures CountAll(FlagsAt(d, starts + [off])) == Count(CountAll(FlagsAt(d, starts)), d[off])
  {
    hide HeaderAt, After, Count;
    HeaderInside(d, off, end);
    var more := starts + [off];
    assert more[..|starts|] == starts;
    var flags := FlagsAt(d, more);
    assert flags == FlagsAt(d, starts) + [d[off]];
    assert flags[..|starts|] == FlagsAt(d, starts);
  }

  lemma HeaderInside(d: Bytes, off: nat, end: nat)
    requires end <= |d| && HeaderAt(d, off, end)
    ensures off + 2 < end && After(d, off, end) > off + 2
  {
    hide Little, Checksum;
  }

  lemma FullMore(blocks: seq<Bytes>, b: Bytes)
    requires Full(blocks) && IsBlock(b)
    ensures !Empty(b) ==> Full(blocks + [b])
    ensures Chain(blocks + [b]) && AllBlocks(blocks) && AllBlocks(blocks + [b])
  {
    hide IsBlock, Empty;
    assert (blocks + [b])[..|blocks|] == blocks;
  }

  lemma FlagsMore(blocks: seq<Bytes>, b: Bytes)
    requires AllBlocks(blocks) && AllBlocks(blocks + [b])
    ensures IsBlock(b) && FlagsOf(blocks + [b]) == FlagsOf(blocks) + [b[0]]
  {
    assert (blocks + [b])[|blocks|] == b;
  }

  /** A chain of the range continues with the block whose header the scan is looking at. */
  lemma ChainContinues(d: Bytes, base: nat, end: nat, off: nat, blocks: seq<Bytes>, starts: seq<nat>, c: Counts,
      w: seq<Bytes>)
    requires base <= end <= |d| && off < end && Progress(d, base, end, off, blocks, starts, c, w) &&
        ChainOf(w, d, base, end)
    ensures HeaderAt(d, off, end) && After(d, off, end) <= end
    ensures blocks + [d[off..After(d, off, end)]] <= w
    ensures Little(d, off + 2, SizeBytes(d[off])) == 0 ==> After(d, off, end) == end
  {
    hide IsBlock, Empty, Walked, Little, HeaderAt, After, Full, Chain, FlagsAt, FlagsOf, CountAll, AllBlocks;
    var k := |blocks|;
    assert w[..k] == blocks;
    NextBlock(w, k, d, base, off, end);
    BlockHasHeader(d, off, end, w[k]);
  }

  /** Progress over one whole, non-empty block. */
  lemma Continues(d: Bytes, base: nat, end: nat, off: nat, blocks: seq<Bytes>, starts: seq<nat>, c: Counts,
      w: seq<Bytes>)
    requires base <= end <= |d| && off < end && Progress(d, base, end, off, blocks, starts, c, w)
    requires HeaderAt(d, off, end) && After(d, off, end) <= end && Little(d, off + 2, SizeBytes(d[off])) != 0
    ensures Progress(d, base, end, After(d, off, end), blocks + [d[off..After(d, off, end)]], starts + [off],
        Count(c, d[off]), w)
  {
    hide IsBlock, Empty, Walked, Little, HeaderAt, After, Full, Chain, Count, CountAll, FlagsAt, FlagsOf, AllBlocks,
         SizeAt, FullStarts;
    HeaderInside(d, off, end);
    SizeIs(d, off, end);
    var next := After(d, off, end);
    var b := d[off..next];
    HeaderHasBlock(d, off, end);
    FullMore(blocks, b);
    WalkedMore(d, base, end, starts, off);
    assert d[base..next] == d[base..off] + b;
    assert (blocks + [b])[..|blocks|] == blocks;
    if ChainOf(w, d, base, end) { ChainContinues(d, base, end, off, blocks, starts, c, w); }
    FlagsMore(blocks, b);
    ConcatSnoc(blocks, b);
    FullStartsMore(d, starts, off);
  }

  /** What a finished scan promises: the verdict on the range as a whole, and how far the walk got and why it
      stopped. */
  ghost predicate Scanned(d: Bytes, base: nat, end: nat, allowTruncatedTail: bool, c: Counts, v: Verdict)
    requires base <= end <= |d|
  {
    && (v == Aligned <==> exists blocks :: ChainOf(blocks, d, base, end))
    && (forall blocks :: ChainOf(blocks, d, base, end) ==> AllBlocks(blocks) && c == CountAll(FlagsOf(blocks)))
    && exists starts, off :: Stopped(d, base, end, allowTruncatedTail, c, v, starts, off)
  }

  ghost predicate Stopped(d: Bytes, base: nat, end: nat, allowTruncatedTail: bool, c: Counts, v: Verdict,
      starts: seq<nat>, off: nat)
    requires end <= |d|
  {
    Walked(d, base, end, starts, off) && c == CountAll(FlagsAt(d, starts)) &&
        Ends(d, end, starts, off, allowTruncatedTail, v)
  }

  /** The scan stops at off with another verdict: the range has no chain. */
  lemma StopsShort(d: Bytes, base: nat, end: nat, allow: bool, c: Counts, v: Verdict, starts: seq<nat>, off: nat,
      w: seq<Bytes>)
    requires base <= end <= |d| && v != Aligned && Stopped(d, base, end, allow, c, v, starts, off)
    requires !ChainOf(w, d, base, end) &&
        ((exists blocks :: ChainOf(blocks, d, base, end)) ==> ChainOf(w, d, base, end))
    ensures Scanned(d, base, end, allow, c, v)
  {
    hide Stopped, ChainOf;
  }

  /** The scan lands on the end: the blocks it counted are the chain. */
  lemma LandsOnEnd(d: Bytes, base: nat, end: nat, allow: bool, c: Counts, starts: seq<nat>, blocks: seq<Bytes>)
    requires base <= end <= |d| && Stopped(d, base, end, allow, c, Aligned, starts, end)
    requires ChainOf(blocks, d, base, end) && AllBlocks(blocks) && FlagsOf(blocks) == FlagsAt(d, starts)
    ensures Scanned(d, base, end, allow, c, Aligned)
  {
    hide Walked, Ends, IsBlock, Empty, CountAll, Chain, FlagsOf, FlagsAt;
    forall v | ChainOf(v, d, base, end) ensures v == blocks { ChainUnique(v, blocks); }
  }

  /** No chain of the range passes a place where the scan finds no header, a block that runs past the end, or an
      empty block before the end. */
  lemma NoChain(d: Bytes, base: nat, end: nat, off: nat, blocks: seq<Bytes>, starts: seq<nat>, c: Counts, w: seq<Bytes>)
    requires base <= end <= |d| && off < end && Progress(d, base, end, off, blocks, starts, c, w)
    requires HeaderAt(d, off, end) ==>
        After(d, off, end) > end || (Little(d, off + 2, SizeBytes(d[off])) == 0 && After(d, off, end) != end)
    ensures !ChainOf(w, d, base, end)
  {
    hide HeaderAt, After, Little, Progress, ChainOf;
    if ChainOf(w, d, base, end) { ChainContinues(d, base, end, off, blocks, starts, c, w); }
  }

  /** The last block is empty and ends at the end. */
  lemma EndsEmpty(d: Bytes, base: nat, end: nat, allow: bool, off: nat, blocks: seq<Bytes>, starts: seq<nat>,
      c: Counts, w: seq<Bytes>)
    requires base <= end <= |d| && off < end && Progress(d, base, end, off, blocks, starts, c, w)
    requires HeaderAt(d, off, end) && After(d, off, end) == end
    ensures Scanned(d, base, end, allow, Count(c, d[off]), Aligned)
  {
    hide IsBlock, Empty, Walked, Little, HeaderAt, After, Full, Chain, Count, CountAll, FlagsAt, FlagsOf, AllBlocks,
         Scanned;
    HeaderInside(d, off, end);
    var b := d[off..end];
    HeaderHasBlock(d, off, end);
    FullMore(blocks, b);
    WalkedMore(d, base, end, starts, off);
    FlagsMore(blocks, b);
    ConcatSnoc(blocks, b);
    assert d[base..end] == d[base..off] + b;
    assert (blocks + [b])[..|blocks|] == blocks;
    assert (starts + [off])[..|starts|] == starts;
    LandsOnEnd(d, base, end, allow, Count(c, d[off]), starts + [off], blocks + [b]);
  }

  lemma EndsFull(d: Bytes, base: nat, end: nat, allow: bool, blocks: seq<Bytes>, starts: seq<nat>, c: Counts,
      w: seq<Bytes>)
    requires base <= end <= |d| && Progress(d, base, end, end, blocks, starts, c, w)
    ensures Scanned(d, base, end, allow, c, Aligned)
  {
    hide IsBlock, Empty, Walked, Full, CountAll, FlagsAt, FlagsOf, AllBlocks, Scanned, SizeAt;
    LandsOnEnd(d, base, end, allow, c, starts, blocks);
  }

  lemma StopsAfter(d: Bytes, base: nat, end: nat, allow: bool, off: nat, blocks: seq<Bytes>, starts: seq<nat>,
      c: Counts, w: seq<Bytes>)
    requires base <= end <= |d| && off < end && Progress(d, base, end, off, blocks, starts, c, w)
    requires HeaderAt(d, off, end) &&
        (After(d, off, end) > end || (Little(d, off + 2, SizeBytes(d[off])) == 0 && After(d, off, end) != end))
    requires (exists b :: ChainOf(b, d, base, end)) ==> ChainOf(w, d, base, end)
    ensures Scanned(d, base, end, allow, Count(c, d[off]), Unreliable)
  {
    hide IsBlock, Empty, Walked, Little, HeaderAt, After, Full, ChainOf, Count, CountAll, FlagsAt, FlagsOf, AllBlocks,
         Scanned, SizeAt;
    WalkedMore(d, base, end, starts, off);
    NoChain(d, base, end, off, blocks, starts, c, w);
    SizeIs(d, off, end);
    var more, next := starts + [off], After(d, off, end);
    assert more[..|starts|] == starts && more[|starts|] == off;
    StopsShort(d, base, end, allow, Count(c, d[off]), Unreliable, more, next, w);
  }

  lemma SizeIs(d: Bytes, off: nat, end: nat)
    requires end <= |d| && HeaderAt(d, off, end)
    ensures SizeAt(d, off) == Little(d, off + 2, SizeBytes(d[off])) && !HeaderCut(d, off, end)
  {
    hide Little;
  }

  lemma StopsAt(d: Bytes, base: nat, end: nat, off: nat, blocks: seq<Bytes>, starts: seq<nat>, c: Counts, w: seq<Bytes>,
                allow: bool, v: Verdict)
    requires base <= end <= |d| && off < end && Progress(d, base, end, off, blocks, starts, c, w)
    requires !HeaderAt(d, off, end)
    requires v == if HeaderCut(d, off, end) then (if allow then Truncated else Unreliable) else BadChecksum
    requires (exists b :: ChainOf(b, d, base, end)) ==> ChainOf(w, d, base, end)
    ensures Scanned(d, base, end, allow, c, v)
  {
    hide IsBlock, Empty, Walked, Little, HeaderAt, After, Full, ChainOf, CountAll, FlagsAt, FlagsOf, AllBlocks,
         Scanned, SizeAt, HeaderCut;
    NoChain(d, base, end, off, blocks, starts, c, w);
    StopsShort(d, base, end, allow, c, v, starts, off, w);
  }

  /** scan_blocks: aligned exactly when the range is a chain of blocks, with the counts of that chain; otherwise the
      counts are of the checksummed headers that follow one another from the base as far as they go, and the verdict
      says what stopped them. */
  method ScanBlocks(d: Bytes, base: nat, size: nat, allowTruncatedTail: bool) returns (c: Counts, v: Verdict)
    requires base + size <= |d|
    ensures Scanned(d, base, base + size, allowTruncatedTail, c, v)
  {
    hide Progress, ChainOf, Scanned, Little, Checksum, Count, SizeBytes;
    var off, end := base, base + size;
    var cut := if allowTruncatedTail then Truncated else Unreliable;
    ghost var blocks: seq<Bytes>, starts: seq<nat>, w: seq<Bytes> := [], [], [];
    if exists b :: ChainOf(b, d, base, end) { w :| ChainOf(w, d, base, end); }
    c := Counts(0, 0, map[]);
    Begins(d, base, end, w);
    while off < end
      invariant base <= off <= end && Progress(d, base, end, off, blocks, starts, c, w)
      decreases end - off
    {
      if !HeaderAt(d, off, end) {
        StopsAt(d, base, end, off, blocks, starts, c, w, allowTruncatedTail,
                if HeaderCut(d, off, end) then cut else BadChecksum);
      }
      if off + 2 > end { return c, cut; }
      var flags, chk := d[off], d[off + 1];
      var count := SizeBytes(flags);
      if off + 2 + count > end { return c, cut; }
      var bsize := ReadSize(d, off + 2, count);
      CountRange(flags);
      if count == 4 || bsize > end - off { return c, cut; }
      if chk != Checksum(flags, bsize) { return c, BadChecksum; }
      var next := off + 2 + count + bsize;
      if next > end || (bsize == 0 && next != end) {
        StopsAfter(d, base, end, allowTruncatedTail, off, blocks, starts, c, w);
        return Count(c, flags), Unreliable;
      }
      if bsize == 0 {
        EndsEmpty(d, base, end, allowTruncatedTail, off, blocks, starts, c, w);
        return Count(c, flags), Aligned;
      }
      Continues(d, base, end, off, blocks, starts, c, w);
      blocks, starts := blocks + [d[off..next]], starts + [off];
      c, off := Count(c, flags), next;
    }
    EndsFull(d, base, end, allowTruncatedTail, blocks, starts, c, w);
    v := Aligned;
  }

  lemma CountRange(flags: byte)
    ensures 1 <= SizeBytes(flags) <= 4
  {
  }

  // ----- A block cut by the end of the range

  /** Where the k-th header of a walk stands; the walk's end for k beyond the last. */
  function Place(starts: seq<nat>, off: nat, k: nat): nat
    requires k <= |starts|
  {
    if k < |starts| then starts[k] else off
  }

  lemma {:induction false} WalkedPart(d: Bytes, base: nat, end: nat, starts: seq<nat>, off: nat, k: nat)
    requires end <= |d| && Walked(d, base, end, starts, off) && k <= |starts|
    ensures Walked(d, base, end, starts[..k], Place(starts, off, k))
    ensures k < |starts| ==> HeaderAt(d, starts[k], end) && Place(starts, off, k + 1) == After(d, starts[k], end)
    decreases |starts| - k
  {
    hide HeaderAt, After;
    if k == |starts| {
      assert starts[..k] == starts;
    } else {
      WalkedPart(d, base, end, starts, off, k + 1);
      assert starts[..k + 1][..k] == starts[..k];
    }
  }

  /** Two walks from one base go the same way as far as both go. */
  lemma {:induction false} WalksAgree(d: Bytes, base: nat, end: nat, a: seq<nat>, offA: nat, b: seq<nat>, offB: nat,
      k: nat)
    requires end <= |d| && Walked(d, base, end, a, offA) && Walked(d, base, end, b, offB) && k <= |a| && k <= |b|
    ensures a[..k] == b[..k] && Place(a, offA, k) == Place(b, offB, k)
  {
    hide HeaderAt, After;
    WalkedPart(d, base, end, a, offA, k);
    WalkedPart(d, base, end, b, offB, k);
    if k > 0 {
      WalksAgree(d, base, end, a, offA, b, offB, k - 1);
      WalkedPart(d, base, end, a, offA, k - 1);
      WalkedPart(d, base, end, b, offB, k - 1);
      assert a[..k] == a[..k - 1] + [a[k - 1]] && b[..k] == b[..k - 1] + [b[k - 1]];
    }
  }

  /** A checksummed header at off whose block runs past the end of the range. */
  predicate CutBlockAt(d: Bytes, off: nat, end: nat)
    requires end <= |d|
  {
    && off + 2 <= end && SizeBytes(d[off]) <= 3 && off + 2 + SizeBytes(d[off]) <= end
    && off + 2 + SizeBytes(d[off]) + Little(d, off + 2, SizeBytes(d[off])) > end
    && d[off + 1] == Checksum(d[off], Little(d, off + 2, SizeBytes(d[off])))
  }

  lemma CutCases(d: Bytes, off: nat, end: nat)
    requires end <= |d| && CutBlockAt(d, off, end)
    ensures HeaderCut(d, off, end) <==> Little(d, off + 2, SizeBytes(d[off])) > end - off
    ensures HeaderAt(d, off, end) <==> !HeaderCut(d, off, end)
    ensures HeaderAt(d, off, end) ==> After(d, off, end) > end && SizeAt(d, off) != 0
  {
    hide Little, Checksum;
  }

  /** After full blocks, a block that the end of the range cuts is called truncated exactly when its size exceeds
      all that is left, header included; when only its last few bytes are missing it is counted and the range is called
      unreliable. */
  lemma CutBlockVerdict(d: Bytes, base: nat, end: nat, c: Counts, v: Verdict, starts: seq<nat>, off: nat)
    requires base <= end <= |d| && Scanned(d, base, end, true, c, v)
    requires Walked(d, base, end, starts, off) && FullStarts(d, starts) && CutBlockAt(d, off, end)
    ensures v == if Little(d, off + 2, SizeBytes(d[off])) > end - off then Truncated else Unreliable
    ensures c == CountAll(FlagsAt(d, if v == Truncated then starts else starts + [off]))
  {
    hide Walked, HeaderAt, After, Little, SizeAt, HeaderCut, CountAll, FlagsAt;
    CutCases(d, off, end);
    var b, stop :| Stopped(d, base, end, true, c, v, b, stop);
    var n := |starts|;
    if |b| < n {
      WalksAgree(d, base, end, starts, off, b, stop, |b|);
      WalkedPart(d, base, end, starts, off, |b|);
      PlaceInside(d, starts[|b|], end);
      assert false;
    }
    WalksAgree(d, base, end, starts, off, b, stop, n);
    assert b[..n] == starts[..n] == starts;
    if |b| > n {
      WalkedPart(d, base, end, b, stop, n);
      if |b| > n + 1 {
        WalkedPart(d, base, end, b, stop, n + 1);
        PlaceInside(d, b[n + 1], end);
        assert false;
      }
      assert b == starts + [off];
    } else {
      assert b == starts;
    }
  }

  lemma PlaceInside(d: Bytes, off: nat, end: nat)
    requires end <= |d| && HeaderAt(d, off, end)
    ensures off < end
  {
  }
}
