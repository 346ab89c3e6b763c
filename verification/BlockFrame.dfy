/** The header frame CRC32 | size vint | body: src/format/header_reader.cpp, src/format/header_writer.cpp. */
module BlockFrame {
  import opened Options
  import opened ByteStrings
  import opened PowersOfTwo
  import opened Vint

  const MAX_BODY: nat := 2 * 1024 * 1024

  const HEAD_MAIN: nat := 1
  const HEAD_FILE: nat := 2
  const HEAD_SERVICE: nat := 3
  const HEAD_CRYPT: nat := 4
  const HEAD_ENDARC: nat := 5

  const HFL_EXTRA: nat := 1
  const HFL_DATA: nat := 2

  /** Whether the bit of the given weight is set. */
  predicate HasBit(v: nat, weight: nat)
    requires weight > 0
  {
    v / weight % 2 == 1
  }

  /** Reads an integer only when `present`; an absent one is 0 and takes no room. */
  function ReadOptional(present: bool, d: Bytes, pos: nat): (r: Option<Vint>)
    ensures r.Some? ==> (pos <= |d| ==> pos + r.value.len <= |d|) && r.value.value < TWO64
  {
    if present then ReadVint(d, pos) else Some(Vint(0, 0))
  }

  /** Type, flags, and the optional extra-area and data-area sizes that open every body; `next` is where they end. */
  datatype Fields = Fields(typ: nat, flags: nat, extraSize: nat, dataSize: nat, next: nat)

  function ParseFields(body: Bytes): (r: Option<Fields>)
    ensures r.Some? ==> r.value.next <= |body| && r.value.extraSize < TWO64 && r.value.dataSize < TWO64
    ensures r.Some? ==> r.value.typ < TWO64 && r.value.flags < TWO64
  {
    match ReadVint(body, 0)
    case None => None
    case Some(t) =>
      match ReadVint(body, t.len)
      case None => None
      case Some(f) =>
        match ReadOptional(HasBit(f.value, HFL_EXTRA), body, t.len + f.len)
        case None => None
        case Some(x) =>
          match ReadOptional(HasBit(f.value, HFL_DATA), body, t.len + f.len + x.len)
          case None => None
          case Some(s) => Some(Fields(t.value, f.value, x.value, s.value, t.len + f.len + x.len + s.len))
  }

  /** The integer at `pos` when bit `weight` of `flags` is set, nothing otherwise. */
  ghost predicate ReadsOptional(body: Bytes, pos: nat, flags: nat, weight: nat, value: nat, next: nat)
    requires weight > 0
  {
    if flags / weight % 2 == 1 then pos < next && ReadVint(body, pos) == Some(Vint(value, next - pos))
    else value == 0 && next == pos
  }

  /** How a body starts: type, flags, the extra-area size if bit 1 of the flags is set, the data size if bit 2 is. */
  ghost predicate StartsWith(body: Bytes, f: Fields, atFlags: nat, atExtra: nat, atData: nat) {
    && 0 < atFlags < atExtra <= atData
    && ReadVint(body, 0) == Some(Vint(f.typ, atFlags))
    && ReadVint(body, atFlags) == Some(Vint(f.flags, atExtra - atFlags))
    && ReadsOptional(body, atExtra, f.flags, 1, f.extraSize, atData)
    && ReadsOptional(body, atData, f.flags, 2, f.dataSize, f.next)
  }

  lemma FieldsExactly(body: Bytes, f: Fields)
    ensures ParseFields(body) == Some(f) <==> exists i, j, k :: StartsWith(body, f, i, j, k)
  {
    hide Groups;
    if ParseFields(body) == Some(f) {
      var t := ReadVint(body, 0).value;
      var g := ReadVint(body, t.len).value;
      var x := ReadOptional(HasBit(g.value, HFL_EXTRA), body, t.len + g.len).value;
      assert StartsWith(body, f, t.len, t.len + g.len, t.len + g.len + x.len);
    }
  }

  datatype Block = Block(fields: Fields, body: Bytes, end: nat)

  datatype ReadResult = Ok(block: Block) | Eof | Error | CrcMismatch

  /** A whole frame fills d[pos..end]: its checksum, its size and that many bytes of body, the checksum over all that
      follows it. */
  ghost predicate FrameAt(d: Bytes, pos: nat, body: Bytes, end: nat) {
    && pos + 4 < end - |body| && |body| <= 2097152 && end <= |d|
    && d[end - |body|..end] == body
    && ReadVint(d, pos + 4) == Some(Vint(|body|, end - |body| - (pos + 4)))
    && ReadLe32(d, pos) == CrcOf(d[pos + 4..end])
  }

  /** read_block_raw_mem at `pos`; `end` is where the cursor is left. */
  function ReadBlock(d: Bytes, pos: nat): (r: ReadResult)
    ensures r.Ok? ==> pos + 6 < r.block.end <= |d| && r.block.fields.dataSize < TWO64
    ensures r.Ok? ==> ParseFields(r.block.body) == Some(r.block.fields)
    ensures r != Eof
  {
    if pos + 4 > |d| then Error
    else
      match ReadVint(d, pos + 4)
      case None => Error
      case Some(v) =>
        var start := pos + 4 + v.len;
        if v.value > MAX_BODY || start + v.value > |d| then Error
        else if CrcOf(d[pos + 4..start + v.value]) != ReadLe32(d, pos) then CrcMismatch
        else
          var body := d[start..start + v.value];
          match ParseFields(body)
          case None => Error
          case Some(f) =>
            ParsedBodyLength(body);
            Ok(Block(f, body, start + v.value))
  }

  lemma ParsedBodyLength(body: Bytes)
    requires ParseFields(body).Some?
    ensures |body| >= 2
  {
  }

  /** Blocks are read exactly where a frame with readable leading fields stands. */
  lemma ReadExactly(d: Bytes, pos: nat, body: Bytes, end: nat)
    ensures FrameAt(d, pos, body, end) && ParseFields(body).Some? <==>
      ReadBlock(d, pos) == Ok(Block(if ParseFields(body).Some? then ParseFields(body).value else Fields(0, 0, 0, 0, 0),
                                    body, end))
  {
    hide CrcOf, ParseFields, ReadLe32, ReadVint;
  }

  lemma ReadIsFrame(d: Bytes, pos: nat)
    requires ReadBlock(d, pos).Ok?
    ensures FrameAt(d, pos, ReadBlock(d, pos).block.body, ReadBlock(d, pos).block.end)
  {
    hide ReadBlock, FrameAt;
    var b := ReadBlock(d, pos).block;
    ReadExactly(d, pos, b.body, b.end);
  }

  // ----- Damage

  /** A frame is read from its own bytes alone. */
  lemma FrameUnchanged(d: Bytes, d': Bytes, pos: nat)
    requires ReadBlock(d, pos).Ok? && ReadBlock(d, pos).block.end <= |d'|
    requires var end := ReadBlock(d, pos).block.end; d[pos..end] == d'[pos..end]
    ensures ReadBlock(d', pos) == ReadBlock(d, pos)
  {
    hide CrcOf, ParseFields, ReadLe32, ReadVint;
    var b := ReadBlock(d, pos).block;
    var start := b.end - |b.body|;
    ReadIsFrame(d, pos);
    SameSlices(d, d', pos, b.end, pos + 4, b.end);
    SameSlices(d, d', pos, b.end, pos + 4, start);
    SameSlices(d, d', pos, b.end, start, b.end);
    SameSlices(d, d', pos, b.end, pos, pos + 4);
    SameVint(d, d', pos + 4);
    SameLe32(d, pos, d[pos..pos + 4]);
    SameLe32(d', pos, d[pos..pos + 4]);
  }

  lemma SameSlices(d: Bytes, d': Bytes, from: nat, to: nat, a: nat, b: nat)
    requires from <= a <= b <= to <= |d| && to <= |d'| && d[from..to] == d'[from..to]
    ensures d[a..b] == d'[a..b]
  {
    forall i | a <= i < b ensures d[i] == d'[i] {
      assert d[i] == d[from..to][i - from] && d'[i] == d'[from..to][i - from];
    }
  }

  /** Up to four consecutive bytes of the body, or any of the checksum field, of the header at `pos`. */
  ghost predicate HeaderDamage(d: Bytes, d': Bytes, pos: nat, lo: nat, hi: nat) {
    ReadBlock(d, pos).Ok? &&
    var b := ReadBlock(d, pos).block;
    && DiffersIn(d, d', lo, hi)
    && ((pos <= lo && hi <= pos + 4) || (b.end - |b.body| <= lo && hi <= b.end && hi <= lo + 4))
  }

  /** Damaged headers are always found out. */
  lemma DamagedHeader(d: Bytes, d': Bytes, pos: nat, lo: nat, hi: nat)
    requires HeaderDamage(d, d', pos, lo, hi)
    ensures ReadBlock(d', pos) == CrcMismatch
  {
    hide CrcOf, ParseFields, ReadLe32, ReadVint, DiffersIn;
    var b := ReadBlock(d, pos).block;
    var start := b.end - |b.body|;
    ReadIsFrame(d, pos);
    DamageSize(d, d', lo, hi);
    UntouchedPart(d, d', lo, hi, pos + 4, start);
    SameVint(d, d', pos + 4);
    if hi <= pos + 4 {
      UntouchedPart(d, d', lo, hi, pos + 4, b.end);
      if ReadLe32(d, pos) == ReadLe32(d', pos) {
        SameFields(d, d', pos);
        DamageShows(d, d', lo, hi, pos);
      }
    } else {
      DamageChangesCrc(d, d', lo, hi, pos + 4, b.end);
      UntouchedPart(d, d', lo, hi, pos, pos + 4);
      SameLe32(d, pos, d[pos..pos + 4]);
      SameLe32(d', pos, d[pos..pos + 4]);
    }
  }

  lemma SameFields(d: Bytes, d': Bytes, pos: nat)
    requires pos + 4 <= |d| && pos + 4 <= |d'| && ReadLe32(d, pos) == ReadLe32(d', pos)
    ensures d[pos..pos + 4] == d'[pos..pos + 4]
  {
    JoinInjective(d[pos], d[pos + 1], d[pos + 2], d[pos + 3], d'[pos], d'[pos + 1], d'[pos + 2], d'[pos + 3]);
  }

  lemma JoinInjective(a: byte, b: byte, c: byte, d: byte, a': byte, b': byte, c': byte, d': byte)
    requires Join32(a, b, c, d) == Join32(a', b', c', d')
    ensures a == a' && b == b' && c == c' && d == d'
  {
    LowByteFirst(a, b + 256 * c + 65536 * d, a', b' + 256 * c' + 65536 * d');
    LowByteFirst(b, c + 256 * d, b', c' + 256 * d');
    LowByteFirst(c, d, c', d');
  }

  lemma LowByteFirst(a: byte, rest: nat, a': byte, rest': nat)
    requires a + 256 * rest == a' + 256 * rest'
    ensures a == a' && rest == rest'
  {
  }

  lemma DamageShows(d: Bytes, d': Bytes, lo: nat, hi: nat, pos: nat)
    requires DiffersIn(d, d', lo, hi) && pos <= lo && hi <= pos + 4 <= |d|
    ensures d[pos..pos + 4] != d'[pos..pos + 4]
  {
    assert d == d[..lo] + d[lo..hi] + d[hi..];
    assert d' == d'[..lo] + d'[lo..hi] + d'[hi..];
    if d[pos..pos + 4] == d'[pos..pos + 4] { SameSlices(d, d', pos, pos + 4, lo, hi); }
  }

  // ----- Writing a frame

  function WrapBlock(body: Bytes): Bytes {
    var size := EncodeVint(|body|);
    Le32(CrcOf(size + body)) + size + body
  }

  /** A frame put anywhere in a byte string is read back as the body that was wrapped. */
  lemma WrapRoundTrip(d: Bytes, pos: nat, body: Bytes)
    requires HasAt(d, pos, WrapBlock(body)) && |body| <= MAX_BODY
    requires ParseFields(body).Some?
    ensures ReadBlock(d, pos) == Ok(Block(ParseFields(body).value, body, pos + |WrapBlock(body)|))
  {
    hide CrcOf, ParseFields, ReadLe32, Le32, EncodeVint, Groups;
    var size := EncodeVint(|body|);
    var crc := Le32(CrcOf(size + body));
    assert WrapBlock(body) == crc + (size + body);
    HasAtSplit(d, pos, crc, size + body);
    HasAtSplit(d, pos + 4, size, body);
    CrcBound(size + body);
    Le32RoundTrip(d, pos, CrcOf(size + body));
    VintRoundTrip(d, pos + 4, |body|);
  }

  // ----- The stream form

  /** A file open for reading; reads stop short only at the end of the file. */
  class FileStream {
    const data: Bytes
    var pos: nat

    constructor (data: Bytes)
      ensures this.data == data && pos == 0
    {
      this.data := data;
      pos := 0;
    }

    method Seek(to: nat)
      modifies this
      ensures pos == to
    {
      pos := to;
    }

    method Read(n: nat) returns (got: Bytes)
      modifies this
      ensures HasAt(data, old(pos), got) || (got == [] && old(pos) > |data|)
      ensures |got| == n || (|got| < n && old(pos) + |got| >= |data|)
      ensures pos == old(pos) + |got|
    {
      if pos >= |data| {
        got := [];
      } else {
        var end := if pos + n <= |data| then pos + n else |data|;
        got := data[pos..end];
        pos := end;
      }
    }
  }

  /** The length of the integer that `prefix` starts with, 0 when no byte ends it. */
  method VintLength(prefix: Bytes) returns (len: nat)
    ensures len <= |prefix|
    ensures len == 0 ==> forall k :: 0 <= k < |prefix| ==> prefix[k] >= 128
    ensures len > 0 ==> prefix[len - 1] < 128 && forall k :: 0 <= k < len - 1 ==> prefix[k] >= 128
  {
    len := 0;
    for i := 0 to |prefix|
      invariant len == 0 && forall k :: 0 <= k < i ==> prefix[k] >= 128
    {
      if prefix[i] < 128 { return i + 1; }
    }
  }

  /** read_block_raw without decryption: consumes one header exactly as the memory reader does. */
  method ReadBlockStream(src: FileStream) returns (r: ReadResult)
    modifies src
    ensures r == if old(src.pos) >= |src.data| then Eof else ReadBlock(src.data, old(src.pos))
    ensures r.Ok? ==> src.pos == r.block.end
  {
    hide CrcOf, ParseFields, ReadLe32, ReadVint;
    var start, d := src.pos, src.data;
    var crcBuf := src.Read(4);
    if |crcBuf| == 0 { return Eof; }
    if |crcBuf| != 4 { return Error; }
    var prefix := src.Read(MAX_VINT_SIZE);
    var len := VintLength(prefix);
    if len == 0 {
      NoTerminator(d, start + 4, prefix);
      return Error;
    }
    src.Seek(start + 4 + len);
    var size := prefix[..len];
    PrefixDecides(d, start + 4, prefix, len);
    var ok, bodySize, _ := ReadVintLoop(size, 0);
    if !ok || bodySize > MAX_BODY { return Error; }
    var body := src.Read(bodySize);
    if |body| != bodySize { return Error; }
    FramePieces(d, start, crcBuf, size, body);
    if CrcOf(size + body) != ReadLe32(crcBuf, 0) { return CrcMismatch; }
    var parsed := ParseFields(body);
    match parsed
    case None => return Error;
    case Some(f) => return Ok(Block(f, body, start + 4 + len + bodySize));
  }

  lemma FramePieces(d: Bytes, pos: nat, crc: Bytes, size: Bytes, body: Bytes)
    requires |crc| == 4 && HasAt(d, pos, crc) && HasAt(d, pos + 4, size)
    requires HasAt(d, pos + 4 + |size|, body) || (body == [] && pos + 4 + |size| > |d|)
    ensures ReadLe32(crc, 0) == ReadLe32(d, pos)
    ensures HasAt(d, pos + 4 + |size|, body)
    ensures d[pos + 4..pos + 4 + |size| + |body|] == size + body
  {
    SameLe32(d, pos, crc);
    assert d[pos + 4..pos + 4 + |size| + |body|] ==
      d[pos + 4..pos + 4 + |size|] + d[pos + 4 + |size|..pos + 4 + |size| + |body|];
  }

  lemma SameLe32(d: Bytes, pos: nat, b: Bytes)
    requires HasAt(d, pos, b) && |b| == 4
    ensures ReadLe32(d, pos) == ReadLe32(b, 0)
  {
    var w := d[pos..pos + 4];
    assert w[0] == d[pos] && w[1] == d[pos + 1] && w[2] == d[pos + 2] && w[3] == d[pos + 3];
  }

  lemma {:induction false} GroupsRunOn(w: Bytes, i: nat)
    requires forall k :: 0 <= k < |w| ==> w[k] >= 128
    ensures Groups(w, 0, i) == None
    decreases MAX_VINT_SIZE - i
  {
    if i < MAX_VINT_SIZE && i < |w| { GroupsRunOn(w, i + 1); }
  }

  lemma NoTerminator(d: Bytes, pos: nat, prefix: Bytes)
    requires HasAt(d, pos, prefix) || (prefix == [] && pos > |d|)
    requires |prefix| == MAX_VINT_SIZE || pos + |prefix| >= |d|
    requires forall k :: 0 <= k < |prefix| ==> prefix[k] >= 128
    ensures ReadVint(d, pos) == None
  {
    if pos <= |d| {
      GroupsRunOn(prefix, 0);
      WindowReads(prefix, d, pos);
    }
  }

  lemma {:induction false} GroupsLength(w: Bytes, i: nat)
    requires i < |w| && w[|w| - 1] < 128 && forall k :: i <= k < |w| - 1 ==> w[k] >= 128
    ensures Groups(w, 0, i).Some? ==> Groups(w, 0, i).value.len == |w|
    decreases |w| - i
  {
    if i < |w| - 1 { GroupsLength(w, i + 1); }
  }

  lemma PrefixDecides(d: Bytes, pos: nat, prefix: Bytes, len: nat)
    requires HasAt(d, pos, prefix) && 0 < len <= |prefix|
    requires prefix[len - 1] < 128 && forall k :: 0 <= k < len - 1 ==> prefix[k] >= 128
    ensures HasAt(d, pos, prefix[..len])
    ensures ReadVint(prefix[..len], 0) == ReadVint(d, pos)
    ensures ReadVint(d, pos).Some? ==> ReadVint(d, pos).value.len == len
  {
    var w := prefix[..len];
    assert d[pos..pos + |prefix|][..len] == d[pos..pos + len];
    assert w[len - 1] < 128;
    WindowReads(w, d, pos);
    GroupsLength(w, 0);
  }
}
