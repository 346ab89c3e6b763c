/** Main, file and end header bodies: src/format/header_reader.cpp and build_*_block_bytes of
    src/archive/buffer_archive.cpp. */
module Headers {
  import opened Options
  import opened ByteStrings
  import opened Vint
  import opened BlockFrame
  import opened DosTime
  import opened PowersOfTwo

  const INT64_MAX: nat := 0x7FFF_FFFF_FFFF_FFFF

  const MHFL_VOLUME: nat := 1
  const MHFL_VOLNUMBER: nat := 2
  const MHFL_PROTECT: nat := 8

  const FHFL_DIRECTORY: nat := 1
  const FHFL_UTIME: nat := 2
  const FHFL_CRC32: nat := 4

  const FHEXTRA_CRYPT: nat := 1
  const FHEXTRA_HASH: nat := 2
  const FHEXTRA_SUBDATA: nat := 7

  // ----- Reading

  /** parse_main_header: the archive flags. The data-size field is not skipped, as in the source. */
  function ParseMain(body: Bytes): Option<nat> {
    var t :- ReadVint(body, 0);
    var f :- ReadVint(body, t.len);
    var x :- ReadOptional(HasBit(f.value, HFL_EXTRA), body, t.len + f.len);
    var a :- ReadVint(body, t.len + f.len + x.len);
    var v :- ReadOptional(HasBit(a.value, MHFL_VOLNUMBER), body, t.len + f.len + x.len + a.len);
    if t.value != HEAD_MAIN || x.value > |body| - (t.len + f.len + x.len + a.len + v.len) then None
    else Some(a.value)
  }

  /** parse_end_header: whether the end flags announce a next volume. Only the low bit of the field is used, and it
      is set even when the field is cut short. */
  function ParseEnd(body: Bytes): Option<bool> {
    var t :- ReadVint(body, 0);
    var f :- ReadVint(body, t.len);
    if t.value != HEAD_ENDARC then None
    else Some(t.len + f.len < |body| && body[t.len + f.len] % 2 == 1)
  }

  datatype FileBlock = FileBlock(
    isService: bool, fileFlags: nat, unpSize: nat, packSize: Option<nat>, attributes: nat,
    hasCrc: bool, crc: nat, utime: nat,
    unpVer: nat, isSolid: bool, packMethod: nat, winSize: nat, extraDist: bool,
    hostOs: nat, name: Bytes, blake2sp: Option<Bytes>, isEncrypted: bool)

  const DICT_BASE: nat := 0x2_0000
  const DICT_MAX_V0: nat := 0x1_0000_0000
  const DICT_MAX_V1: nat := 0x100_0000_0000

  /** The dictionary size; one more than the format's maximum marks a size that no decoder accepts. */
  function WindowSize(ci: nat): nat {
    var ver, bits := ci % 64, ci / 1024 % 32;
    if ver > 1 || (ci / 128 % 8 == 0 && bits == 0) then 0
    else if ver == 0 then (if bits > 15 then DICT_MAX_V0 + 1 else DICT_BASE * Pow2(bits))
    else if bits > 23 then DICT_MAX_V1 + 1
    else
      var base := DICT_BASE * Pow2(bits);
      var win := base + base / 32 * (ci / 32768 % 32);
      if win > DICT_MAX_V1 then DICT_MAX_V1 + 1 else win
  }

  /** The window that a compression field names. Version 0: 128 KiB times a power of two up to 2^15. Version 1: the
      same up to 2^23, plus thirty-seconds of it, up to 1 TiB. Stored members without exponent have none. */
  lemma WindowExactly(ci: nat)
    ensures var bits, w := ci / 1024 % 32, WindowSize(ci);
      && (ci % 64 > 1 || (ci / 128 % 8 == 0 && bits == 0) ==> w == 0)
      && (ci % 64 == 0 && !(ci / 128 % 8 == 0 && bits == 0) ==>
            w == if bits <= 15 then 131072 * Pow2(bits) else 4294967297)
      && (ci % 64 == 1 && !(ci / 128 % 8 == 0 && bits == 0) ==>
            if bits <= 23 && (131072 + 4096 * (ci / 32768 % 32)) * Pow2(bits) <= 1099511627776
            then w == (131072 + 4096 * (ci / 32768 % 32)) * Pow2(bits) else w == 1099511627777)
  {
    hide Pow2;
    var base, frac := DICT_BASE * Pow2(ci / 1024 % 32), ci / 32768 % 32;
    assert base / 32 == 4096 * Pow2(ci / 1024 % 32);
    assert base + base / 32 * frac == (131072 + 4096 * frac) * Pow2(ci / 1024 % 32);
  }

  function ReadOptional32(present: bool, d: Bytes, pos: nat): (r: Option<Vint>)
    ensures r.Some? ==> (pos <= |d| ==> pos + r.value.len <= |d|) && r.value.value < TWO32
  {
    if !present then Some(Vint(0, 0))
    else if pos + 4 > |d| then None
    else Some(Vint(ReadLe32(d, pos), 4))
  }

  datatype Sizes = Sizes(flags: nat, unpSize: nat, attributes: nat, next: nat)

  function ReadSizes(body: Bytes, pos: nat): (r: Option<Sizes>)
    ensures r.Some? ==> r.value.next <= |body|
  {
    var flags :- ReadVint(body, pos);
    var unp :- ReadVint(body, pos + flags.len);
    var attr :- ReadVint(body, pos + flags.len + unp.len);
    Some(Sizes(flags.value, unp.value, attr.value, pos + flags.len + unp.len + attr.len))
  }

  datatype Codes = Codes(utime: nat, crc: nat, compInfo: nat, hostOs: nat, nameLen: nat, next: nat)

  function ReadCodes(body: Bytes, pos: nat, flags: nat): (r: Option<Codes>)
    ensures r.Some? ==> r.value.next <= |body|
  {
    var utime :- ReadOptional32(HasBit(flags, FHFL_UTIME), body, pos);
    var p1 := pos + utime.len;
    var crc :- ReadOptional32(HasBit(flags, FHFL_CRC32), body, p1);
    var p2 := p1 + crc.len;
    var ci :- ReadVint(body, p2);
    var p3 := p2 + ci.len;
    var os :- ReadVint(body, p3);
    var p4 := p3 + os.len;
    var nameLen :- ReadVint(body, p4);
    Some(Codes(utime.value, crc.value, ci.value, os.value, nameLen.value, p4 + nameLen.len))
  }

  function MakeFileBlock(f: Fields, s: Sizes, c: Codes, name: Bytes): FileBlock {
    FileBlock(
      f.typ == HEAD_SERVICE, s.flags, s.unpSize,
      if HasBit(f.flags, HFL_DATA) then Some(f.dataSize) else None, s.attributes,
      HasBit(s.flags, FHFL_CRC32), c.crc, c.utime,
      c.compInfo % 64, HasBit(c.compInfo, 64), c.compInfo / 128 % 8, WindowSize(c.compInfo),
      c.compInfo % 64 == 1 && !HasBit(c.compInfo, 0x10_0000),
      c.hostOs % TWO32, name, None, false)
  }

  /** Which bits of the three flag words mean what. */
  lemma FlagMeaning(f: Fields, s: Sizes, c: Codes, name: Bytes)
    ensures var b := MakeFileBlock(f, s, c, name);
      && b.isService == (f.typ == 3) && b.packSize == (if f.flags / 2 % 2 == 1 then Some(f.dataSize) else None)
      && b.hasCrc == (s.flags / 4 % 2 == 1)
      && b.unpVer == c.compInfo % 64 && b.isSolid == (c.compInfo / 64 % 2 == 1) && b.packMethod == c.compInfo / 128 % 8
      && b.extraDist == (c.compInfo % 64 == 1 && c.compInfo / 1048576 % 2 == 0)
  {
  }

  /** parse_file_header. */
  function ParseFile(body: Bytes): Option<FileBlock> {
    var f :- ParseFields(body);
    var s :- ReadSizes(body, f.next);
    var c :- ReadCodes(body, s.next, s.flags);
    if f.typ != HEAD_FILE && f.typ != HEAD_SERVICE then None
    else if f.dataSize > INT64_MAX || c.nameLen > |body| - c.next then None
    else
      var end := c.next + c.nameLen;
      var block := MakeFileBlock(f, s, c, body[c.next..end]);
      if f.extraSize == 0 then Some(block)
      else if f.extraSize > |body| - end then None
      else ExtraRecords(body, |body| - f.extraSize, block)
  }

  /** A file header is rejected when its data size does not fit 63 bits. */
  lemma DataSizeBound(body: Bytes)
    requires ParseFile(body).Some?
    ensures ParseFields(body).Some? && ParseFields(body).value.dataSize <= 9223372036854775807
  {
    hide ParseFields, ReadSizes, ReadCodes, ExtraRecords, MakeFileBlock;
  }

  /** Whether a file-encryption record spanning [p, end) has all its fields. */
  predicate CryptRecordComplete(body: Bytes, p: nat, end: nat)
    requires p <= end <= |body|
  {
    var area := body[..end];
    match ReadVint(area, p)
    case None => false
    case Some(ver) =>
      match ReadVint(area, p + ver.len)
      case None => false
      case Some(flags) => end - (p + ver.len + flags.len) >= 33 + (if HasBit(flags.value, 1) then 12 else 0)
  }

  /** A complete encryption record: version, flags, the iteration exponent, salt and initialisation vector of 16 bytes
      each, and with flag 1 a check value of 8 bytes with a checksum of 4. */
  ghost predicate CryptFields(body: Bytes, p: nat, end: nat, v: Vint, f: Vint)
    requires p <= end <= |body|
  {
    && ReadVint(body[..end], p) == Some(v) && ReadVint(body[..end], p + v.len) == Some(f)
    && p + v.len + f.len + 1 + 16 + 16 + (if f.value % 2 == 1 then 8 + 4 else 0) <= end
  }

  lemma CryptExactly(body: Bytes, p: nat, end: nat)
    requires p <= end <= |body|
    ensures CryptRecordComplete(body, p, end) <==> exists v, f :: CryptFields(body, p, end, v, f)
  {
    hide ReadVint;
    if CryptRecordComplete(body, p, end) {
      var v := ReadVint(body[..end], p).value;
      assert CryptFields(body, p, end, v, ReadVint(body[..end], p + v.len).value);
    }
  }

  /** How a main header is read: type 1 and flags, the extra size if bit 1 of the flags is set, the archive flags, and
      the volume number if bit 2 of those is set; the extra area lies behind. */
  ghost predicate MainStarts(body: Bytes, arcFlags: nat, flags: nat, at: seq<nat>, extra: nat, volume: nat) {
    && |at| == 5 && 0 < at[0] < at[1] <= at[2] < at[3] <= at[4] <= |body|
    && ReadVint(body, 0) == Some(Vint(1, at[0])) && ReadVint(body, at[0]) == Some(Vint(flags, at[1] - at[0]))
    && ReadsOptional(body, at[1], flags, 1, extra, at[2])
    && ReadVint(body, at[2]) == Some(Vint(arcFlags, at[3] - at[2]))
    && ReadsOptional(body, at[3], arcFlags, 2, volume, at[4])
    && at[4] + extra <= |body|
  }

  lemma MainExactly(body: Bytes, arcFlags: nat)
    ensures ParseMain(body) == Some(arcFlags) <==>
      exists flags, at, extra, volume :: MainStarts(body, arcFlags, flags, at, extra, volume)
  {
    hide Groups;
    if ParseMain(body) == Some(arcFlags) {
      var t := ReadVint(body, 0).value;
      var f := ReadVint(body, t.len).value;
      var x := ReadOptional(HasBit(f.value, HFL_EXTRA), body, t.len + f.len).value;
      var p := t.len + f.len + x.len;
      var a := ReadVint(body, p).value;
      var v := ReadOptional(HasBit(a.value, MHFL_VOLNUMBER), body, p + a.len).value;
      assert MainStarts(body, arcFlags, f.value, [t.len, t.len + f.len, p, p + a.len, p + a.len + v.len], x.value,
                        v.value);
    }
  }

  /** Where a record ends: its announced size, cut off at the end of the body. */
  function Clamped(body: Bytes, p: nat, size: nat): (end: nat)
    requires p < |body| && size >= 1
    ensures p < end <= |body|
  {
    if size <= |body| - p then p + size else |body|
  }

  /** Where the next record starts; a sub-data record takes a single byte left over after it. */
  function NextRecord(body: Bytes, p: nat, size: nat): (next: nat)
    requires p < |body| && size >= 1
    ensures Clamped(body, p, size) <= next <= |body|
  {
    var end := Clamped(body, p, size);
    if body[p] == FHEXTRA_SUBDATA && |body| - end == 1 then |body| else end
  }

  /** What one extra record makes of the block; None rejects the header. */
  function ExtraRecord(body: Bytes, p: nat, size: nat, block: FileBlock): Option<FileBlock>
    requires p < |body| && size >= 1
  {
    var end := Clamped(body, p, size);
    var kind := body[p];
    if kind == FHEXTRA_HASH && size >= 34 then
      if end - (p + 1) >= 33 && body[p + 1] == 0 then Some(block.(blake2sp := Some(body[p + 2..p + 34])))
        else Some(block)
    else if kind == FHEXTRA_CRYPT then
      if CryptRecordComplete(body, p + 1, end) then Some(block.(isEncrypted := true)) else None
    else Some(block)
  }

  /** The records from `off` to the end of the body. */
  function ExtraRecords(body: Bytes, off: nat, block: FileBlock): Option<FileBlock>
    decreases |body| - off
  {
    if off >= |body| then Some(block)
    else
      match ReadVint(body, off)
      case None => Some(block)
      case Some(size) =>
        var p := off + size.len;
        if p >= |body| || size.value < 1 then Some(block)
        else
          var next :- ExtraRecord(body, p, size.value, block);
          ExtraRecords(body, NextRecord(body, p, size.value), next)
  }

  // ----- What the record area means

  /** A record: where its size field starts, where its type byte stands, its announced size, and where the next one
      starts. */
  datatype Record = Record(start: nat, place: nat, size: nat, next: nat)

  /** The records that the area from `off` is cut into, whatever they hold. */
  function Records(body: Bytes, off: nat): seq<Record>
    decreases |body| - off
  {
    if off >= |body| then []
    else
      match ReadVint(body, off)
      case None => []
      case Some(size) =>
        var p := off + size.len;
        if p >= |body| || size.value < 1 then []
        else
          var next := NextRecord(body, p, size.value);
          [Record(off, p, size.value, next)] + Records(body, next)
  }

  predicate Inside(body: Bytes, r: Record) { r.start < r.place < r.next <= |body| && r.size >= 1 }

  ghost predicate LaidFrom(body: Bytes, off: nat, rs: seq<Record>) {
    && (forall i :: 0 <= i < |rs| ==> off <= rs[i].start && Inside(body, rs[i]))
    && (forall i, j :: 0 <= i < j < |rs| ==> rs[i].next <= rs[j].start)
  }

  lemma LaidNone(body: Bytes, off: nat)
    ensures LaidFrom(body, off, [])
  {
  }

  /** Every record lies inside the area, and they follow one another without overlap. */
  lemma {:induction false} RecordsLaid(body: Bytes, off: nat)
    ensures LaidFrom(body, off, Records(body, off))
    decreases |body| - off
  {
    hide ReadVint, NextRecord, LaidFrom;
    LaidNone(body, off);
    if off < |body| && ReadVint(body, off).Some? {
      var size := ReadVint(body, off).value;
      var p := off + size.len;
      if p < |body| && size.value >= 1 {
        var next := NextRecord(body, p, size.value);
        var r, rest := Record(off, p, size.value, next), Records(body, next);
        RecordsLaid(body, next);
        LaidCons(body, off, r, rest);
      }
    }
  }

  lemma LaidCons(body: Bytes, off: nat, r: Record, rest: seq<Record>)
    requires off <= r.start && Inside(body, r) && LaidFrom(body, r.next, rest)
    ensures LaidFrom(body, off, [r] + rest)
  {
    var rs := [r] + rest;
    forall i | 0 <= i < |rs| ensures rs[i] == if i == 0 then r else rest[i - 1] {}
  }

  /** How the area is cut, record by record: a size, its type byte, and the end after that many bytes or at the end of
      the body; a sub-data record (type 7) also takes a single byte left over. */
  predicate CutAt(body: Bytes, r: Record) {
    && Inside(body, r)
    && ReadVint(body, r.start) == Some(Vint(r.size, r.place - r.start))
    && (r.place + r.size >= |body| ==> r.next == |body|)
    && (r.place + r.size < |body| ==>
          r.next == r.place + r.size + (if body[r.place] == 7 && r.place + r.size + 1 == |body| then 1 else 0))
  }

  /** No further record starts at `off`: the area is used up, the size cannot be read or is zero, or nothing follows
      it. */
  predicate CutEnds(body: Bytes, off: nat) {
    off >= |body| || ReadVint(body, off).None? || ReadVint(body, off).value.value == 0 ||
    off + ReadVint(body, off).value.len == |body|
  }

  ghost predicate CutFrom(body: Bytes, off: nat, rs: seq<Record>) {
    && (forall i :: 0 <= i < |rs| ==> CutAt(body, rs[i]))
    && (forall i :: 0 < i < |rs| ==> rs[i].start == rs[i - 1].next)
    && (rs != [] ==> rs[0].start == off)
    && CutEnds(body, if rs == [] then off else rs[|rs| - 1].next)
  }

  /** The records are the one way to cut the area: each starts where the one before ends, and the last where no other
      follows. */
  lemma {:induction false} RecordsExactly(body: Bytes, off: nat, rs: seq<Record>)
    ensures CutFrom(body, off, Records(body, off))
    ensures CutFrom(body, off, rs) ==> rs == Records(body, off)
    decreases |body| - off
  {
    hide ReadVint, NextRecord, Records, CutFrom, CutEnds, CutAt;
    if CutEnds(body, off) {
      CutDone(body, off, rs);
    } else {
      FirstRecord(body, off);
      var r := Records(body, off)[0];
      RecordsExactly(body, r.next, if rs == [] then [] else rs[1..]);
      CutCons(body, off, r, Records(body, r.next));
      if CutFrom(body, off, rs) {
        CutFirst(body, off, rs);
        assert rs == [rs[0]] + rs[1..];
      }
    }
  }

  /** Where the cut ends there is no record, and there is no other cut. */
  lemma CutDone(body: Bytes, off: nat, rs: seq<Record>)
    requires CutEnds(body, off)
    ensures Records(body, off) == [] && CutFrom(body, off, [])
    ensures CutFrom(body, off, rs) ==> rs == []
  {
    hide ReadVint, NextRecord;
    if rs != [] && CutFrom(body, off, rs) { assert CutAt(body, rs[0]); }
  }

  lemma FirstRecord(body: Bytes, off: nat)
    requires !CutEnds(body, off)
    ensures Records(body, off) != [] && var r := Records(body, off)[0];
      && Records(body, off) == [r] + Records(body, r.next)
      && r.start == off && CutAt(body, r) && off < r.next <= |body|
      && r == FirstAt(body, off)
  {
    hide ReadVint, NextRecord, CutAt;
    VintStays(body, off);
    RecordCut(body, off);
    CutInside(body, FirstAt(body, off));
  }

  function FirstAt(body: Bytes, off: nat): Record
    requires !CutEnds(body, off)
  {
    var size := ReadVint(body, off).value;
    VintStays(body, off);
    Record(off, off + size.len, size.value, NextRecord(body, off + size.len, size.value))
  }

  lemma CutInside(body: Bytes, r: Record)
    requires CutAt(body, r)
    ensures Inside(body, r)
  {
    hide ReadVint;
  }

  lemma VintStays(body: Bytes, off: nat)
    requires ReadVint(body, off).Some?
    ensures off < off + ReadVint(body, off).value.len <= |body|
  {
  }

  lemma RecordCut(body: Bytes, off: nat)
    requires off < |body| && ReadVint(body, off).Some?
    requires ReadVint(body, off).value.value >= 1 && off + ReadVint(body, off).value.len < |body|
    ensures var size := ReadVint(body, off).value;
      CutAt(body, Record(off, off + size.len, size.value, NextRecord(body, off + size.len, size.value)))
  {
    hide ReadVint;
    VintStays(body, off);
  }

  lemma CutCons(body: Bytes, off: nat, r: Record, rest: seq<Record>)
    requires r.start == off && CutAt(body, r) && CutFrom(body, r.next, rest)
    ensures CutFrom(body, off, [r] + rest)
  {
    hide CutAt, CutEnds;
    var rs := [r] + rest;
    forall i | 0 < i < |rs| ensures rs[i].start == rs[i - 1].next && CutAt(body, rs[i]) {
      assert rs[i] == rest[i - 1];
      if i > 1 { assert rs[i - 1] == rest[i - 2]; }
    }
  }

  /** Any cut begins with the first record and goes on with a cut of what follows it. */
  lemma CutFirst(body: Bytes, off: nat, rs: seq<Record>)
    requires CutFrom(body, off, rs) && !CutEnds(body, off)
    ensures rs != [] && rs[0] == FirstAt(body, off) && CutFrom(body, rs[0].next, rs[1..])
  {
    hide ReadVint;
    assert CutAt(body, rs[0]);
    VintStays(body, off);
    forall i | 0 < i < |rs[1..]| ensures rs[1..][i].start == rs[1..][i - 1].next {
      assert rs[1..][i] == rs[i + 1] && rs[1..][i - 1] == rs[i];
    }
  }

  /** A file-encryption record that is cut short. */
  predicate Rejects(body: Bytes, r: Record)
    requires Inside(body, r)
  {
    body[r.place] == 1 && !CryptRecordComplete(body, r.place + 1, Clamped(body, r.place, r.size))
  }

  predicate Encrypts(body: Bytes, r: Record)
    requires Inside(body, r)
  {
    body[r.place] == 1
  }

  /** The BLAKE2sp digest that a record carries, when it has room for one. */
  function DigestIn(body: Bytes, r: Record): Option<Bytes>
    requires Inside(body, r)
  {
    if body[r.place] == 2 && r.size >= 34 && Clamped(body, r.place, r.size) - (r.place + 1) >= 33 &&
      body[r.place + 1] == 0
    then Some(body[r.place + 2..r.place + 34]) else None
  }

  ghost predicate AllInside(body: Bytes, rs: seq<Record>) { forall i :: 0 <= i < |rs| ==> Inside(body, rs[i]) }

  ghost predicate SomeRejects(body: Bytes, rs: seq<Record>)
    requires AllInside(body, rs)
  {
    exists i :: 0 <= i < |rs| && Rejects(body, rs[i])
  }

  ghost predicate SomeEncrypts(body: Bytes, rs: seq<Record>)
    requires AllInside(body, rs)
  {
    exists i :: 0 <= i < |rs| && Encrypts(body, rs[i])
  }

  /** The digest of the last record that carries one, or the one given. */
  ghost function LastDigest(body: Bytes, rs: seq<Record>, given: Option<Bytes>): Option<Bytes>
    requires AllInside(body, rs)
  {
    if rs == [] then given
    else
      var d := DigestIn(body, rs[|rs| - 1]);
      if d.Some? then d else LastDigest(body, rs[..|rs| - 1], given)
  }

  lemma {:induction false} LastDigestCons(body: Bytes, r: Record, rs: seq<Record>, given: Option<Bytes>)
    requires AllInside(body, [r] + rs) && AllInside(body, rs) && Inside(body, r)
    ensures LastDigest(body, [r] + rs, given) ==
        LastDigest(body, rs, if DigestIn(body, r).Some? then DigestIn(body, r) else given)
  {
    hide DigestIn, Inside;
    if rs == [] {
      assert [r] + rs == [r] && [r][..0] == [];
    } else {
      var most := rs[..|rs| - 1];
      assert ([r] + rs)[..|rs|] == [r] + most;
      LastDigestCons(body, r, most, given);
    }
  }

  lemma AreaInside(body: Bytes, off: nat)
    ensures AllInside(body, Records(body, off))
  {
    RecordsLaid(body, off);
  }

  lemma RecordAdds(body: Bytes, r: Record, block: FileBlock)
    requires Inside(body, r)
    ensures ExtraRecord(body, r.place, r.size, block) ==
      if Rejects(body, r) then None
      else Some(block.(blake2sp := if DigestIn(body, r).Some? then DigestIn(body, r) else block.blake2sp,
                       isEncrypted := block.isEncrypted || Encrypts(body, r)))
  {
    hide CryptRecordComplete;
  }

  /** The area rejects the header exactly when one of its records is a cut-off encryption record; otherwise it sets
      the digest to that of the last record that carries one and the encryption mark if there is an encryption record,
      and changes nothing else. */
  lemma {:induction false} ExtraMeaning(body: Bytes, off: nat, block: FileBlock)
    ensures AllInside(body, Records(body, off))
    ensures ExtraRecords(body, off, block) ==
      if SomeRejects(body, Records(body, off)) then None
      else Some(block.(blake2sp := LastDigest(body, Records(body, off), block.blake2sp),
                       isEncrypted := block.isEncrypted || SomeEncrypts(body, Records(body, off))))
    decreases |body| - off
  {
    hide ReadVint, ExtraRecord, Rejects, Encrypts, DigestIn, NextRecord, Inside;
    AreaInside(body, off);
    if off < |body| && ReadVint(body, off).Some? {
      var size := ReadVint(body, off).value;
      var p := off + size.len;
      if p < |body| && size.value >= 1 {
        var next := NextRecord(body, p, size.value);
        var r, rest := Record(off, p, size.value, next), Records(body, next);
        var all := [r] + rest;
        assert all[0] == r;
        AreaInside(body, next);
        RecordAdds(body, r, block);
        LastDigestCons(body, r, rest, block.blake2sp);
        SomeCons(body, r, rest);
        var after := ExtraRecord(body, p, size.value, block);
        if after.Some? { ExtraMeaning(body, next, after.value); }
      }
    }
  }

  lemma SomeCons(body: Bytes, r: Record, rs: seq<Record>)
    requires AllInside(body, [r] + rs) && AllInside(body, rs) && Inside(body, r)
    ensures SomeRejects(body, [r] + rs) <==> Rejects(body, r) || SomeRejects(body, rs)
    ensures SomeEncrypts(body, [r] + rs) <==> Encrypts(body, r) || SomeEncrypts(body, rs)
  {
    hide Rejects, Encrypts, Inside;
    var all := [r] + rs;
    assert all[0] == r;
    forall i | 0 <= i < |rs| ensures all[i + 1] == rs[i] {}
    if SomeRejects(body, rs) {
      var i :| 0 <= i < |rs| && Rejects(body, rs[i]);
      assert Rejects(body, all[i + 1]);
    }
    if SomeEncrypts(body, rs) {
      var i :| 0 <= i < |rs| && Encrypts(body, rs[i]);
      assert Encrypts(body, all[i + 1]);
    }
  }

  /** The record loop of parse_file_header. */
  method ParseExtraRecords(body: Bytes, start: nat, block: FileBlock) returns (r: Option<FileBlock>)
    ensures AllInside(body, Records(body, start))
    ensures r.None? <==> SomeRejects(body, Records(body, start))
    ensures r.Some? ==> r.value == block.(blake2sp := LastDigest(body, Records(body, start), block.blake2sp),
                                          isEncrypted := block.isEncrypted || SomeEncrypts(body, Records(body, start)))
    ensures r == ExtraRecords(body, start, block)
  {
    hide ExtraRecord, ReadVint, NextRecord, Records, SomeRejects, SomeEncrypts, LastDigest, AllInside;
    ExtraMeaning(body, start, block);
    var off, b := start, block;
    while off < |body|
      invariant ExtraRecords(body, off, b) == ExtraRecords(body, start, block)
    {
      var size := ReadVint(body, off);
      if size.None? || off + size.value.len >= |body| || size.value.value < 1 { break; }
      var p := off + size.value.len;
      var next := ExtraRecord(body, p, size.value.value, b);
      if next.None? { return None; }
      off, b := NextRecord(body, p, size.value.value), next.value;
    }
    r := Some(b);
  }

  // ----- Writing

  function SetBit(v: nat, weight: nat, on: bool): nat
    requires weight > 0
  {
    if on && !HasBit(v, weight) then v + weight else v
  }

  function EffectiveFlags(fb: FileBlock): nat {
    SetBit(SetBit(fb.fileFlags, FHFL_CRC32, fb.hasCrc), FHFL_UTIME, fb.utime != 0)
  }

  function Optional(present: bool, piece: Bytes): Bytes { if present then piece else [] }

  function DictBits(winSize: nat, pow2: nat, from: nat): (r: nat)
    requires from <= 15
    ensures from <= r <= 15
    decreases 15 - from
  {
    if 2 * pow2 <= winSize && from < 15 then DictBits(winSize, 2 * pow2, from + 1) else from
  }

  /** The doubling loop that names a window by its exponent over 128 KiB: the largest power that fits, up to 15. */
  method CountDictBits(winSize: nat) returns (bits: nat)
    requires winSize >= DICT_BASE
    ensures bits <= 15 && DICT_BASE * Pow2(bits) <= winSize
    ensures bits < 15 ==> winSize < DICT_BASE * Pow2(bits + 1)
    ensures bits == DictBits(winSize, DICT_BASE, 0)
  {
    hide Pow2;
    var pow2 := DICT_BASE;
    bits := 0;
    Pow2Next(0);
    while 2 * pow2 <= winSize && bits < 15
      invariant pow2 == DICT_BASE * Pow2(bits) <= winSize && bits <= 15
      invariant DictBits(winSize, pow2, bits) == DictBits(winSize, DICT_BASE, 0)
      decreases 15 - bits
    {
      Pow2Next(bits);
      pow2, bits := 2 * pow2, bits + 1;
    }
    Pow2Next(bits);
  }

  function CompInfo(fb: FileBlock): nat {
    fb.unpVer % 64 + (if fb.isSolid then 64 else 0) + fb.packMethod % 8 * 128
      + (if fb.winSize >= DICT_BASE && fb.packMethod != 0 then DictBits(fb.winSize, DICT_BASE, 0) * 1024 else 0)
  }

  function HeadFlags(fb: FileBlock, includeData: bool): nat {
    if includeData && fb.packSize.Some? then HFL_DATA else 0
  }

  function CodesPart(fb: FileBlock, flags: nat, rest: Bytes): Bytes {
    Optional(HasBit(flags, FHFL_UTIME), Le32(UnixToDos(fb.utime)))
    + (Optional(HasBit(flags, FHFL_CRC32), Le32(fb.crc))
    + (EncodeVint(CompInfo(fb)) + (EncodeVint(fb.hostOs) + (EncodeVint(|fb.name|) + rest))))
  }

  /** The parts of a file header body after the leading fields. */
  function FileTail(fb: FileBlock): Bytes {
    EncodeVint(EffectiveFlags(fb)) + (EncodeVint(fb.unpSize) + (EncodeVint(fb.attributes)
    + CodesPart(fb, EffectiveFlags(fb), fb.name)))
  }

  /** The body that build_file_block_bytes wraps. */
  function FileBody(fb: FileBlock, includeData: bool): Bytes {
    EncodeVint(if fb.isService then HEAD_SERVICE else HEAD_FILE)
    + (EncodeVint(HeadFlags(fb, includeData))
    + (Optional(HeadFlags(fb, includeData) == HFL_DATA, EncodeVint(if fb.packSize.Some? then fb.packSize.value else 0))
    + FileTail(fb)))
  }

  function MainBody(): Bytes { EncodeVint(HEAD_MAIN) + (EncodeVint(0) + EncodeVint(0)) }

  function EndBody(): Bytes { EncodeVint(HEAD_ENDARC) + (EncodeVint(0) + EncodeVint(0)) }

  // ----- Round trip

  /** Field widths of the source's FileBlock. */
  predicate InWidth(fb: FileBlock) {
    && fb.fileFlags < TWO64 && fb.unpSize < TWO64 && fb.attributes < TWO64 && |fb.name| < TWO64
    && fb.crc < TWO32 && fb.hostOs < TWO32 && fb.utime < TWO32
    && (fb.packSize.Some? ==> fb.packSize.value <= 9223372036854775807)
  }

  /** What a reader makes of a written block. */
  function Stored(fb: FileBlock, includeData: bool): FileBlock {
    var flags := EffectiveFlags(fb);
    fb.(fileFlags := flags,
        packSize := if includeData then fb.packSize else None,
        hasCrc := HasBit(flags, FHFL_CRC32),
        crc := if HasBit(flags, FHFL_CRC32) then fb.crc else 0,
        utime := UnixToDos(fb.utime),
        unpVer := fb.unpVer % 64,
        packMethod := fb.packMethod % 8,
        winSize := WindowSize(CompInfo(fb)),
        extraDist := fb.unpVer % 64 == 1,
        blake2sp := None,
        isEncrypted := false)
  }

  /** One step along a written body: an integer, then the rest. */
  lemma VintStep(d: Bytes, off: nat, v: nat, rest: Bytes)
    requires HasAt(d, off, EncodeVint(v) + rest) && v < TWO64
    ensures ReadVint(d, off) == Some(Vint(v, |EncodeVint(v)|))
    ensures HasAt(d, off + |EncodeVint(v)|, rest)
  {
    hide EncodeVint, ReadVint, Groups;
    HasAtSplit(d, off, EncodeVint(v), rest);
    VintRoundTrip(d, off, v);
  }

  lemma OptionalStep(d: Bytes, off: nat, present: bool, v: nat, rest: Bytes)
    requires HasAt(d, off, Optional(present, EncodeVint(v)) + rest) && v < TWO64
    ensures ReadOptional(present, d, off) == Some(if present then Vint(v, |EncodeVint(v)|) else Vint(0, 0))
    ensures HasAt(d, off + |Optional(present, EncodeVint(v))|, rest)
  {
    hide EncodeVint, ReadVint, Groups;
    if present { VintStep(d, off, v, rest); } else { assert [] + rest == rest; }
  }

  lemma Optional32Step(d: Bytes, off: nat, present: bool, v: nat, rest: Bytes)
    requires HasAt(d, off, Optional(present, Le32(v)) + rest) && v < TWO32
    ensures ReadOptional32(present, d, off) == Some(if present then Vint(v, 4) else Vint(0, 0))
    ensures HasAt(d, off + |Optional(present, Le32(v))|, rest)
  {
    hide Le32, ReadLe32;
    if present {
      HasAtSplit(d, off, Le32(v), rest);
      Le32RoundTrip(d, off, v);
    } else {
      assert [] + rest == rest;
    }
  }

  lemma HasAtItself(d: Bytes)
    ensures HasAt(d, 0, d)
  {
  }

  lemma LeadingFields(body: Bytes, typ: nat, flags: nat, size: nat, tail: Bytes)
    requires body == EncodeVint(typ) + (EncodeVint(flags) + (Optional(flags == HFL_DATA, EncodeVint(size)) + tail))
    requires typ < TWO64 && size < TWO64 && (flags == 0 || flags == HFL_DATA)
    ensures ParseFields(body).Some?
    ensures HasAt(body, ParseFields(body).value.next, tail)
    ensures ParseFields(body).value.typ == typ && ParseFields(body).value.flags == flags
    ensures ParseFields(body).value.extraSize == 0
    ensures ParseFields(body).value.dataSize == if flags == HFL_DATA then size else 0
    ensures ParseFields(body).value.next + |tail| == |body|
  {
    hide EncodeVint, ReadVint, HasAt;
    var data := Optional(flags == HFL_DATA, EncodeVint(size));
    HasAtItself(body);
    VintStep(body, 0, typ, EncodeVint(flags) + (data + tail));
    VintStep(body, |EncodeVint(typ)|, flags, data + tail);
    OptionalStep(body, |EncodeVint(typ)| + |EncodeVint(flags)|, flags == HFL_DATA, size, tail);
  }

  lemma CompInfoFields(fb: FileBlock)
    ensures CompInfo(fb) % 64 == fb.unpVer % 64
    ensures HasBit(CompInfo(fb), 64) == fb.isSolid
    ensures CompInfo(fb) / 128 % 8 == fb.packMethod % 8
    ensures CompInfo(fb) / 1024 % 32 ==
        (if fb.winSize >= DICT_BASE && fb.packMethod != 0 then DictBits(fb.winSize, DICT_BASE, 0) else 0)
    ensures CompInfo(fb) < 32768
  {
    hide DictBits;
    var a := fb.packMethod % 8 + 8 * (if fb.winSize >= DICT_BASE && fb.packMethod != 0
      then DictBits(fb.winSize, DICT_BASE, 0) else 0);
    assert CompInfo(fb) == fb.unpVer % 64 + 64 * ((if fb.isSolid then 1 else 0) + 2 * a);
  }

  lemma LowBits(v: nat)
    ensures v / 4 % 2 == v % 8 / 4 && v / 2 % 2 == v % 8 / 2 % 2 && v % 2 == v % 8 % 2
    ensures v % 8 < 4 ==> (v + 4) % 8 == v % 8 + 4
    ensures v % 8 < 6 ==> (v + 2) % 8 == v % 8 + 2
  {
    var q := v / 8;
    assert v == 8 * q + v % 8;
    assert v / 4 == 2 * q + v % 8 / 4 && v / 2 == 4 * q + v % 8 / 2;
  }

  lemma SetBitFacts(v: nat, weight: nat, on: bool)
    requires v < TWO64 && (weight == FHFL_UTIME || weight == FHFL_CRC32)
    ensures SetBit(v, weight, on) < TWO64
    ensures HasBit(SetBit(v, weight, on), weight) == (on || HasBit(v, weight))
    ensures HasBit(SetBit(v, weight, on), FHFL_DIRECTORY) == HasBit(v, FHFL_DIRECTORY)
    ensures weight == FHFL_UTIME ==> HasBit(SetBit(v, weight, on), FHFL_CRC32) == HasBit(v, FHFL_CRC32)
    ensures weight == FHFL_CRC32 ==> HasBit(SetBit(v, weight, on), FHFL_UTIME) == HasBit(v, FHFL_UTIME)
  {
    LowBits(v);
    if on && !HasBit(v, weight) {
      assert v == 8 * (v / 8) + v % 8;
      LowBits(v + weight);
    }
  }

  lemma EffectiveFlagsFacts(fb: FileBlock)
    requires fb.fileFlags < TWO64
    ensures EffectiveFlags(fb) < TWO64
    ensures HasBit(EffectiveFlags(fb), FHFL_UTIME) == (fb.utime != 0 || HasBit(fb.fileFlags, FHFL_UTIME))
    ensures HasBit(EffectiveFlags(fb), FHFL_DIRECTORY) == HasBit(fb.fileFlags, FHFL_DIRECTORY)
    ensures HasBit(EffectiveFlags(fb), FHFL_CRC32) == (fb.hasCrc || HasBit(fb.fileFlags, FHFL_CRC32))
  {
    hide SetBit;
    var v := SetBit(fb.fileFlags, FHFL_CRC32, fb.hasCrc);
    SetBitFacts(fb.fileFlags, FHFL_CRC32, fb.hasCrc);
    SetBitFacts(v, FHFL_UTIME, fb.utime != 0);
  }

  lemma SizesRead(body: Bytes, pos: nat, flags: nat, unpSize: nat, attributes: nat, rest: Bytes)
    requires HasAt(body, pos, EncodeVint(flags) + (EncodeVint(unpSize) + (EncodeVint(attributes) + rest)))
    requires flags < TWO64 && unpSize < TWO64 && attributes < TWO64
    ensures ReadSizes(body, pos).Some?
    ensures ReadSizes(body, pos).value.(next := 0) == Sizes(flags, unpSize, attributes, 0)
    ensures HasAt(body, ReadSizes(body, pos).value.next, rest)
  {
    hide EncodeVint, ReadVint, HasAt;
    VintStep(body, pos, flags, EncodeVint(unpSize) + (EncodeVint(attributes) + rest));
    VintStep(body, pos + |EncodeVint(flags)|, unpSize, EncodeVint(attributes) + rest);
    VintStep(body, pos + |EncodeVint(flags)| + |EncodeVint(unpSize)|, attributes, rest);
  }

  lemma CodesRead(body: Bytes, pos: nat, fb: FileBlock, flags: nat, rest: Bytes)
    requires HasAt(body, pos, CodesPart(fb, flags, rest)) && InWidth(fb)
    ensures ReadCodes(body, pos, flags).Some?
    ensures ReadCodes(body, pos, flags).value.(next := 0) == Codes(
      if HasBit(flags, FHFL_UTIME) then UnixToDos(fb.utime) else 0,
      if HasBit(flags, FHFL_CRC32) then fb.crc else 0,
      CompInfo(fb), fb.hostOs, |fb.name|, 0)
    ensures HasAt(body, ReadCodes(body, pos, flags).value.next, rest)
  {
    hide EncodeVint, ReadVint, HasAt, Le32, CompInfo, UnixToDos, ReadOptional32, HasBit;
    var r1 := EncodeVint(|fb.name|) + rest;
    var r2 := EncodeVint(fb.hostOs) + r1;
    var r3 := EncodeVint(CompInfo(fb)) + r2;
    var hasCrc, hasTime := HasBit(flags, FHFL_CRC32), HasBit(flags, FHFL_UTIME);
    CompInfoFields(fb);
    DosRange(fb.utime);
    Optional32Step(body, pos, hasTime, UnixToDos(fb.utime), Optional(hasCrc, Le32(fb.crc)) + r3);
    var p := pos + if hasTime then 4 else 0;
    Optional32Step(body, p, hasCrc, fb.crc, r3);
    p := p + if hasCrc then 4 else 0;
    VintStep(body, p, CompInfo(fb), r2);
    p := p + |EncodeVint(CompInfo(fb))|;
    VintStep(body, p, fb.hostOs, r1);
    VintStep(body, p + |EncodeVint(fb.hostOs)|, |fb.name|, rest);
  }

  lemma MadeIsStored(fb: FileBlock, includeData: bool, f: Fields, s: Sizes, c: Codes)
    requires InWidth(fb)
    requires f.typ == (if fb.isService then HEAD_SERVICE else HEAD_FILE) && f.flags == HeadFlags(fb, includeData)
    requires f.flags == HFL_DATA ==> f.dataSize == fb.packSize.value
    requires s.flags == EffectiveFlags(fb) && s.unpSize == fb.unpSize && s.attributes == fb.attributes
    requires c.utime == (if HasBit(s.flags, FHFL_UTIME) then UnixToDos(fb.utime) else 0)
    requires c.crc == (if HasBit(s.flags, FHFL_CRC32) then fb.crc else 0)
    requires c.compInfo == CompInfo(fb) && c.hostOs == fb.hostOs
    ensures MakeFileBlock(f, s, c, fb.name) == Stored(fb, includeData)
  {
    hide CompInfo, EffectiveFlags, WindowSize;
    EffectiveFlagsFacts(fb);
    CompInfoFields(fb);
    DosRange(fb.utime);
  }

  /** parse_file_header undoes build_file_block_bytes, for every block within its field widths. */
  lemma FileRoundTrip(fb: FileBlock, includeData: bool)
    requires InWidth(fb)
    ensures ParseFile(FileBody(fb, includeData)) == Some(Stored(fb, includeData))
  {
    hide EncodeVint, HasAt, CompInfo, EffectiveFlags, ExtraRecords, ParseFields, ReadSizes, ReadCodes, CodesPart,
         MakeFileBlock, Stored, HasBit;
    var body, flags := FileBody(fb, includeData), EffectiveFlags(fb);
    EffectiveFlagsFacts(fb);
    LeadingFields(body, if fb.isService then HEAD_SERVICE else HEAD_FILE, HeadFlags(fb, includeData),
                  if fb.packSize.Some? then fb.packSize.value else 0, FileTail(fb));
    var f := ParseFields(body).value;
    SizesRead(body, f.next, flags, fb.unpSize, fb.attributes, CodesPart(fb, flags, fb.name));
    var s := ReadSizes(body, f.next).value;
    CodesRead(body, s.next, fb, flags, fb.name);
    var c := ReadCodes(body, s.next, flags).value;
    NameAt(body, c.next, fb.name);
    MadeIsStored(fb, includeData, f, s, c);
  }

  lemma NameAt(d: Bytes, off: nat, name: Bytes)
    requires HasAt(d, off, name)
    ensures off + |name| <= |d| && d[off..off + |name|] == name
  {
  }
}
