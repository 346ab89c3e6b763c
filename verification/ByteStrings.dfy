/** Byte strings, and pieces found at an offset of one. */
module ByteStrings {
  import opened Crc
  import opened CrcTables
  import opened PowersOfTwo

  type byte = b: int | 0 <= b < 256

  type Bytes = seq<byte>

  const SLASH: byte := 47

  /** `piece` stands at offset `off` of `d`. */
  predicate HasAt(d: Bytes, off: nat, piece: Bytes) {
    off + |piece| <= |d| && d[off..off + |piece|] == piece
  }

  lemma HasAtSplit(d: Bytes, off: nat, a: Bytes, b: Bytes)
    requires HasAt(d, off, a + b)
    ensures HasAt(d, off, a) && HasAt(d, off + |a|, b)
  {
    var p := d[off..off + |a + b|];
    assert d[off..off + |a|] == p[..|a|] == a;
    assert d[off + |a|..off + |a| + |b|] == p[|a|..] == b;
  }

  function Concat(pieces: seq<Bytes>): Bytes { if pieces == [] then [] else pieces[0] + Concat(pieces[1..]) }

  lemma {:induction false} ConcatSnoc(pieces: seq<Bytes>, last: Bytes)
    ensures Concat(pieces + [last]) == Concat(pieces) + last
  {
    if pieces == [] {
      assert Concat([last]) == last + Concat([last][1..]);
    } else {
      assert (pieces + [last])[1..] == pieces[1..] + [last];
      ConcatSnoc(pieces[1..], last);
    }
  }

  // ----- 32-bit little-endian fields

  function Le32(v: nat): (b: Bytes)
    ensures |b| == 4
  {
    [v % 256, v / 256 % 256, v / 65536 % 256, v / 16777216 % 256]
  }

  function Join32(a: nat, b: nat, c: nat, d: nat): nat { a + 256 * b + 65536 * c + 16777216 * d }

  function ReadLe32(d: Bytes, off: nat): (v: nat)
    requires off + 4 <= |d|
    ensures v < TWO32
  {
    Join32(d[off], d[off + 1], d[off + 2], d[off + 3])
  }

  lemma JoinBytes(v: nat)
    requires v < TWO32
    ensures Join32(v % 256, v / 256 % 256, v / 65536 % 256, v / 16777216 % 256) == v
  {
    assert v / 65536 == v / 256 / 256 && v / 16777216 == v / 256 / 256 / 256;
  }

  lemma Le32RoundTrip(d: Bytes, off: nat, v: nat)
    requires v < TWO32 && HasAt(d, off, Le32(v))
    ensures ReadLe32(d, off) == v
  {
    hide Join32;
    var p := d[off..off + 4];
    assert d[off] == p[0] && d[off + 1] == p[1] && d[off + 2] == p[2] && d[off + 3] == p[3];
    JoinBytes(v);
  }

  // ----- CRC-32 of a byte string

  function BitsOf(d: Bytes): seq<Byte> { seq(|d|, i requires 0 <= i < |d| => Digits(d[i], 8)) }

  /** The checksum as the number that headers store. */
  function CrcOf(d: Bytes): nat { Value(Crc32(BitsOf(d))[..32]) }

  lemma CrcBound(d: Bytes)
    ensures CrcOf(d) < TWO32
  {
    hide Crc32, Pow2;
    ValueBound(Crc32(BitsOf(d))[..32]);
    Powers();
  }

  // ----- What the stored checksum detects

  /** Bytes are determined by their bits. */
  lemma BitsOfInjective(a: Bytes, b: Bytes)
    requires BitsOf(a) == BitsOf(b)
    ensures a == b
  {
    hide Digits;
    assert |a| == |BitsOf(a)| == |BitsOf(b)| == |b|;
    forall i | 0 <= i < |a| ensures a[i] == b[i] {
      assert BitsOf(a)[i] == Digits(a[i], 8) && BitsOf(b)[i] == Digits(b[i], 8);
      SmallValue(a[i]);
      SmallValue(b[i]);
    }
  }

  lemma {:induction false} DigitsValue(v: nat, n: nat)
    requires v < Pow2(n)
    ensures Value(Digits(v, n)) == v
    decreases n
  {
    if n > 0 { DigitsValue(v / 2, n - 1); }
  }

  lemma SmallValue(v: byte)
    ensures Value(Digits(v, 8)) == v
  {
    assert Pow2(4) == 16;
    assert Pow2(8) == 256;
    DigitsValue(v, 8);
  }

  lemma BitsOfConcat(a: Bytes, b: Bytes)
    ensures BitsOf(a + b) == BitsOf(a) + BitsOf(b)
  {
    hide Digits;
  }

  lemma Crc32Width(data: seq<Byte>)
    ensures ClearFrom(Crc32(data), 32)
  {
    hide Feed, Xor, HasWidth, ClearFrom;
    Width32();
    XorNil(MASK32);
    FeedInjective(POLY32, 32, MASK32, MASK32, data);
    XorClear(Feed(POLY32, MASK32, data), MASK32, 32);
  }

  /** Nothing is lost between the register and the number. */
  lemma CrcOfInjective(a: Bytes, b: Bytes)
    requires CrcOf(a) == CrcOf(b)
    ensures Crc32(BitsOf(a)) == Crc32(BitsOf(b))
  {
    hide Crc32, BitsOf, Value;
    var x, y := Crc32(BitsOf(a)), Crc32(BitsOf(b));
    Crc32Width(BitsOf(a));
    Crc32Width(BitsOf(b));
    ValueDigits(x[..32]);
    ValueDigits(y[..32]);
    assert x[..32] == y[..32];
    assert x == x[..32] + x[32..] && y == y[..32] + y[32..];
  }

  /** A burst of at most four bytes always changes the stored checksum. */
  lemma CrcOfBurst(pre: Bytes, a: Bytes, b: Bytes, post: Bytes)
    requires |a| == |b| <= 4 && a != b
    ensures CrcOf(pre + a + post) != CrcOf(pre + b + post)
  {
    hide BitsOf, Crc32, CrcOf;
    BitsOfConcat(pre + a, post);
    BitsOfConcat(pre, a);
    BitsOfConcat(pre + b, post);
    BitsOfConcat(pre, b);
    if BitsOf(a) == BitsOf(b) { BitsOfInjective(a, b); }
    BitsLength(a);
    BitsLength(b);
    BurstsDetected(BitsOf(pre), BitsOf(a), BitsOf(b), BitsOf(post));
    if CrcOf(pre + a + post) == CrcOf(pre + b + post) { CrcOfInjective(pre + a + post, pre + b + post); }
  }

  lemma BitsLength(d: Bytes)
    ensures |BitsOf(d)| == |d|
  {
  }

  /** The byte strings have the same length, agree outside [lo, hi) and differ inside. */
  ghost predicate DiffersIn(d: Bytes, d': Bytes, lo: nat, hi: nat) {
    && |d| == |d'| && lo <= hi <= |d|
    && d[..lo] == d'[..lo] && d[hi..] == d'[hi..] && d != d'
  }

  lemma DamageSize(d: Bytes, d': Bytes, lo: nat, hi: nat)
    requires DiffersIn(d, d', lo, hi)
    ensures |d| == |d'| && lo <= hi <= |d|
  {
  }

  /** Of any part that holds the damage, up to four bytes of it, the checksum changes. */
  lemma DamageChangesCrc(d: Bytes, d': Bytes, lo: nat, hi: nat, from: nat, to: nat)
    requires DiffersIn(d, d', lo, hi) && hi <= lo + 4 && from <= lo && hi <= to <= |d|
    ensures CrcOf(d[from..to]) != CrcOf(d'[from..to])
  {
    hide CrcOf;
    var pre, a, b, post := d[from..lo], d[lo..hi], d'[lo..hi], d[hi..to];
    assert d'[from..lo] == pre by { assert pre == d[..lo][from..] && d'[from..lo] == d'[..lo][from..]; }
    assert d'[hi..to] == post by { assert post == d[hi..][..to - hi] && d'[hi..to] == d'[hi..][..to - hi]; }
    assert d[from..to] == pre + a + post;
    assert d'[from..to] == pre + b + post;
    assert d == d[..lo] + a + d[hi..] && d' == d'[..lo] + b + d'[hi..];
    CrcOfBurst(pre, a, b, post);
  }

  /** A part that the damage does not touch is the same. */
  lemma UntouchedPart(d: Bytes, d': Bytes, lo: nat, hi: nat, from: nat, to: nat)
    requires DiffersIn(d, d', lo, hi) && from <= to <= |d| && (to <= lo || hi <= from)
    ensures d[from..to] == d'[from..to]
  {
    forall i | from <= i < to ensures d[i] == d'[i] {
      if to <= lo {
        assert d[i] == d[..lo][i] && d'[i] == d'[..lo][i];
      } else {
        assert d[i] == d[hi..][i - hi] && d'[i] == d'[hi..][i - hi];
      }
    }
  }
}
