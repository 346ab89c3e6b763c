/** Listing what create_archive wrote: src/archive/buffer_archive.cpp. */
module ContainerRoundTrip {
  import opened Options
  import opened ByteStrings
  import opened Vint
  import opened BlockFrame
  import opened DosTime
  import opened Headers
  import opened HeaderWalk
  import opened Signature
  import opened Listing
  import opened PathRules
  import opened CreateArchive
  import opened PowersOfTwo

  // ----- Sizes

  lemma {:induction false} EncodingShort(v: nat, i: nat)
    requires i <= 9 && v < Bound(i)
    ensures |EncodeVint(v)| <= 10 - i
  {
    if v >= 128 { EncodingShort(v / 128, i + 1); }
  }

  lemma VintShort(v: nat)
    requires v < TWO64
    ensures |EncodeVint(v)| <= 10
  {
    hide *;
    BoundZero();
    EncodingShort(v, 0);
  }

  lemma CodesShort(fb: FileBlock, flags: nat)
    requires InWidth(fb)
    ensures |CodesPart(fb, flags, fb.name)| <= 38 + |fb.name|
  {
    hide EncodeVint, CompInfo, HasBit;
    CompInfoFields(fb);
    VintShort(CompInfo(fb));
    VintShort(fb.hostOs);
    VintShort(|fb.name|);
  }

  /** A header for a path of at most 2048 bytes stays far below the size limit of header bodies. */
  lemma BodyFits(fb: FileBlock, includeData: bool)
    requires InWidth(fb) && |fb.name| <= 2048
    ensures |FileBody(fb, includeData)| <= MAX_BODY
  {
    hide EncodeVint, CodesPart, EffectiveFlags;
    EffectiveFlagsFacts(fb);
    CodesShort(fb, EffectiveFlags(fb));
    VintShort(EffectiveFlags(fb));
    VintShort(fb.unpSize);
    VintShort(fb.attributes);
    VintShort(HeadFlags(fb, includeData));
    VintShort(if fb.isService then HEAD_SERVICE else HEAD_FILE);
    VintShort(if fb.packSize.Some? then fb.packSize.value else 0);
  }

  lemma FileFields(fb: FileBlock, includeData: bool)
    requires InWidth(fb)
    ensures ParseFields(FileBody(fb, includeData)).Some?
    ensures var f := ParseFields(FileBody(fb, includeData)).value;
      && f.typ == (if fb.isService then HEAD_SERVICE else HEAD_FILE)
      && f.dataSize == (if includeData && fb.packSize.Some? then fb.packSize.value else 0)
  {
    hide EncodeVint, FileTail, ParseFields;
    LeadingFields(FileBody(fb, includeData), if fb.isService then HEAD_SERVICE else HEAD_FILE,
                  HeadFlags(fb, includeData), if fb.packSize.Some? then fb.packSize.value else 0, FileTail(fb));
  }

  // ----- Windows

  lemma {:induction false} DictBitsExact(k: nat, j: nat)
    requires j <= k <= 15
    ensures DictBits(DICT_BASE * Pow2(k), DICT_BASE * Pow2(j), j) == k
    decreases k - j
  {
    hide Pow2;
    if j < k {
      Pow2Next(j);
      Pow2Grows(j + 1, k);
      DictBitsExact(k, j + 1);
    }
  }

  /** The window of a compressed member comes back exactly when it is 128 KiB times a power of two; a stored member
      has none. */
  lemma WindowKept(fb: FileBlock, k: nat)
    requires fb.unpVer == 0 && fb.packMethod < 8 && k <= 15
    requires fb.packMethod != 0 ==> fb.winSize == DICT_BASE * Pow2(k)
    ensures WindowSize(CompInfo(fb)) == if fb.packMethod == 0 then 0 else fb.winSize
  {
    hide CompInfo, DictBits, Pow2;
    CompInfoFields(fb);
    Pow2Next(0);
    Pow2Grows(0, k);
    DictBitsExact(k, 0);
  }

  // ----- One member

  /** What a listing says of an input, and where its payload lies. */
  ghost predicate Describes(e: Entry, f: Input, m: Member, d: Bytes) {
    && e.path == f.path && e.isDir == IsDirPath(f.path) && e.size == |f.data|
    && e.crc == (if f.data == [] then None else Some(CrcOf(f.data)))
    && e.packMethod == m.block.packMethod && e.winSize == m.block.winSize && !e.extraDist
    && !e.isEncrypted && e.blake2sp == None
    && e.mtime == DosToUnix(UnixToDos(f.mtime % TWO32))
    && e.packedSize == |m.payload| && HasAt(d, e.dataOffset, m.payload)
  }

  predicate SizesOk(files: seq<Input>) { forall i :: 0 <= i < |files| ==> |files[i].data| <= INT64_MAX }

  lemma MemberInWidth(f: Input, packMethod: nat, log2: nat, compress: Compressor)
    requires InputOk(f) && |f.data| <= INT64_MAX && ArgsOk(packMethod, log2)
    ensures var m := MakeMember(f, packMethod, WindowFromLog2(log2), compress);
      && InWidth(m.block) && |m.block.name| <= 2048
      && m.includeData == (f.data != []) && (m.includeData ==> m.block.packSize == Some(|m.payload|))
      && (!m.includeData ==> m.payload == [])
      && WindowSize(CompInfo(m.block)) == m.block.winSize
  {
    hide CompInfo, WindowSize, CrcOf, Pow2;
    CrcBound(f.data);
    WindowKept(MakeMember(f, packMethod, WindowFromLog2(log2), compress).block, log2 - 1);
  }

  lemma MemberStep(d: Bytes, pos: nat, f: Input, packMethod: nat, log2: nat, compress: Compressor) returns (e: Entry)
    requires InputOk(f) && |f.data| <= INT64_MAX && ArgsOk(packMethod, log2)
    requires HasAt(d, pos, MemberBytes(MakeMember(f, packMethod, WindowFromLog2(log2), compress)))
    ensures var m := MakeMember(f, packMethod, WindowFromLog2(log2), compress);
      && StepAt(d, pos, false) == Next(pos + |MemberBytes(m)|, Some(e), None, false)
      && Describes(e, f, m, d)
  {
    hide FileBody, CompInfo, WindowSize, CrcOf, ReadBlock, WrapBlock, ParseFile, ParseFields, WindowFromLog2,
         ValidPath, DosToUnix, UnixToDos, EffectiveFlags;
    var m := MakeMember(f, packMethod, WindowFromLog2(log2), compress);
    var body := FileBody(m.block, m.includeData);
    MemberInWidth(f, packMethod, log2, compress);
    BodyFits(m.block, m.includeData);
    FileFields(m.block, m.includeData);
    FileRoundTrip(m.block, m.includeData);
    EffectiveFlagsFacts(m.block);
    HasAtSplit(d, pos, MemberHeader(m), m.payload);
    WrapRoundTrip(d, pos, body);
    e := MakeEntry(Stored(m.block, m.includeData), pos, pos + |MemberHeader(m)|);
  }

  // ----- The bytes of a member's header

  /** The header body that is written for an input, field by field: type 2; header flags, 2 when data follows, and then
      its size; file flags, 1 for a directory, 2 for a time, 4 for a checksum; unpacked size; attributes 0x20; time;
      checksum; method in bits 7 to 9 and window in bits 10 to 14; host system 1; name. */
  function HeaderLayout(f: Input, packed: Option<Bytes>, packMethod: nat, log2: nat): Bytes
    requires 1 <= log2
  {
    var payload := if packed.Some? then packed.value else f.data;
    var hasData, hasTime := f.data != [], f.mtime % TWO32 != 0;
    var flags := (if IsDirPath(f.path) then 1 else 0) + (if hasTime then 2 else 0) + (if hasData then 4 else 0);
    var info := if packed.Some? then 128 * packMethod + 1024 * (log2 - 1) else 0;
    [2] + ((if hasData then [2] + EncodeVint(|payload|) else [0])
    + ([flags] + (EncodeVint(|f.data|) + ([0x20] + CodesLayout(f, info)))))
  }

  function CodesLayout(f: Input, info: nat): Bytes {
    (if f.mtime % TWO32 != 0 then Le32(UnixToDos(f.mtime % TWO32)) else [])
    + ((if f.data != [] then Le32(CrcOf(f.data)) else [])
    + (EncodeVint(info) + ([1] + (EncodeVint(|f.path|) + f.path))))
  }

  lemma CreatedHeaderLayout(f: Input, packMethod: nat, log2: nat, compress: Compressor)
    requires InputOk(f) && ArgsOk(packMethod, log2)
    ensures var m := MakeMember(f, packMethod, WindowFromLog2(log2), compress);
      FileBody(m.block, m.includeData) ==
        HeaderLayout(f, Packed(f, packMethod, WindowFromLog2(log2), compress), packMethod, log2)
  {
    hide EncodeVint, CrcOf, ValidPath, CompInfo, EffectiveFlags, WindowFromLog2, CodesPart, CodesLayout;
    var m := MakeMember(f, packMethod, WindowFromLog2(log2), compress);
    MemberInfo(f, packMethod, log2, compress);
    MemberFlags(m.block, IsDirPath(f.path), f.data != [], f.mtime % TWO32 != 0);
    SmallCodes();
    MemberCodes(m.block, f, EffectiveFlags(m.block));
  }

  lemma MemberCodes(fb: FileBlock, f: Input, flags: nat)
    requires fb.utime == f.mtime % TWO32 && fb.name == f.path && fb.hostOs == 1
    requires f.data != [] ==> fb.crc == CrcOf(f.data)
    requires HasBit(flags, FHFL_UTIME) == (f.mtime % TWO32 != 0) && HasBit(flags, FHFL_CRC32) == (f.data != [])
    ensures CodesPart(fb, flags, f.path) == CodesLayout(f, CompInfo(fb))
  {
    hide EncodeVint, Le32, UnixToDos, CrcOf, CompInfo, HasBit;
    SmallCodes();
  }

  lemma SmallCodes()
    ensures forall v: nat | v < 128 :: EncodeVint(v) == [v]
  {
  }

  lemma MemberFlags(fb: FileBlock, isDir: bool, hasData: bool, hasTime: bool)
    requires fb.fileFlags == (if isDir then FHFL_DIRECTORY else 0) && fb.hasCrc == hasData && (fb.utime != 0) == hasTime
    ensures var flags := (if isDir then 1 else 0) + (if hasTime then 2 else 0) + (if hasData then 4 else 0);
      EffectiveFlags(fb) == flags && HasBit(flags, FHFL_UTIME) == hasTime && HasBit(flags, FHFL_CRC32) == hasData
  {
  }

  lemma MemberInfo(f: Input, packMethod: nat, log2: nat, compress: Compressor)
    requires ArgsOk(packMethod, log2)
    ensures var m := MakeMember(f, packMethod, WindowFromLog2(log2), compress);
      CompInfo(m.block) == if Packed(f, packMethod, WindowFromLog2(log2), compress).Some?
        then 128 * packMethod + 1024 * (log2 - 1) else 0
  {
    hide Pow2, DictBits, CrcOf, CompInfo;
    Pow2Next(0);
    Pow2Grows(0, log2 - 1);
    DictBitsExact(log2 - 1, 0);
    InfoIs(MakeMember(f, packMethod, WindowFromLog2(log2), compress).block, log2 - 1);
  }

  lemma InfoIs(fb: FileBlock, bits: nat)
    requires fb.unpVer == 0 && !fb.isSolid && fb.packMethod < 8
    requires fb.packMethod != 0 ==> fb.winSize >= DICT_BASE && DictBits(fb.winSize, DICT_BASE, 0) == bits
    ensures CompInfo(fb) == if fb.packMethod == 0 then 0 else 128 * fb.packMethod + 1024 * bits
  {
    hide DictBits;
  }

  // ----- The whole archive

  lemma SmallVints()
    ensures EncodeVint(HEAD_MAIN) == [1] && EncodeVint(HEAD_ENDARC) == [5] && EncodeVint(0) == [0]
  {
  }

  lemma SmallBodies()
    ensures MainBody() == [1, 0, 0] && EndBody() == [5, 0, 0]
    ensures ParseFields([1, 0, 0]) == Some(Fields(HEAD_MAIN, 0, 0, 0, 2)) &&
        ParseFields([5, 0, 0]) == Some(Fields(HEAD_ENDARC, 0, 0, 0, 2))
    ensures ParseMain([1, 0, 0]) == Some(0) && ParseEnd([5, 0, 0]) == Some(false)
  {
    SmallVints();
    assert Groups([1, 0, 0], 0, 0) == Some(Vint(1, 1)) && Groups([1, 0, 0], 1, 0) == Some(Vint(0, 1)) &&
      Groups([1, 0, 0], 2, 0) == Some(Vint(0, 1));
    assert Groups([5, 0, 0], 0, 0) == Some(Vint(5, 1)) && Groups([5, 0, 0], 1, 0) == Some(Vint(0, 1));
  }

  lemma MainStep(d: Bytes, pos: nat)
    requires HasAt(d, pos, WrapBlock(MainBody()))
    ensures StepAt(d, pos, false) == Next(pos + |WrapBlock(MainBody())|, None, Some(0), false)
  {
    hide WrapBlock, ReadBlock, ParseFields, ParseMain, ParseEnd, MainBody, EndBody, FileStep;
    SmallBodies();
    WrapRoundTrip(d, pos, MainBody());
  }

  lemma EndStep(d: Bytes, pos: nat)
    requires HasAt(d, pos, WrapBlock(EndBody()))
    ensures StepAt(d, pos, false) == Next(pos + |WrapBlock(EndBody())|, None, None, true)
  {
    hide WrapBlock, ReadBlock, ParseFields, ParseMain, ParseEnd, MainBody, EndBody, FileStep;
    SmallBodies();
    WrapRoundTrip(d, pos, EndBody());
  }

  /** The entries are those of the inputs, in order. */
  ghost predicate DescribesAll(entries: seq<Entry>, files: seq<Input>, packMethod: nat, window: nat,
      compress: Compressor, d: Bytes) {
    && |entries| == |files|
    && forall i :: 0 <= i < |files| ==>
        Describes(entries[i], files[i], MakeMember(files[i], packMethod, window, compress), d)
  }

  lemma DescribesCons(e: Entry, entries: seq<Entry>, files: seq<Input>, packMethod: nat, window: nat,
      compress: Compressor, d: Bytes)
    requires files != [] && Describes(e, files[0], MakeMember(files[0], packMethod, window, compress), d)
    requires DescribesAll(entries, files[1..], packMethod, window, compress, d)
    ensures DescribesAll([e] + entries, files, packMethod, window, compress, d)
  {
    hide Describes, MakeMember;
    forall i | 0 <= i < |files|
      ensures Describes(([e] + entries)[i], files[i], MakeMember(files[i], packMethod, window, compress), d)
    {
      if i > 0 { assert files[i] == files[1..][i - 1]; }
    }
  }

  lemma {:induction false} MembersWalk(d: Bytes, pos: nat, files: seq<Input>, packMethod: nat, log2: nat,
      compress: Compressor, cancel: nat -> bool, polls: nat)
    requires InputsOk(files) && SizesOk(files) && ArgsOk(packMethod, log2) && forall k :: !cancel(k)
    requires HasAt(d, pos, MembersBytes(files, packMethod, WindowFromLog2(log2), compress) + WrapBlock(EndBody()))
    ensures var w := Walk(d, pos, false, cancel, polls, 0);
      w.status == Done && w.arcFlags == 0 &&
          DescribesAll(w.entries, files, packMethod, WindowFromLog2(log2), compress, d)
    decreases |files|
  {
    hide StepAt, MemberBytes, MakeMember, WrapBlock, EndBody, WindowFromLog2, InputOk, Describes;
    var end, window := WrapBlock(EndBody()), WindowFromLog2(log2);
    WrapNonempty(EndBody());
    if files == [] {
      assert MembersBytes(files, packMethod, window, compress) + end == end;
      EndStep(d, pos);
    } else {
      var first, rest := MemberBytes(MakeMember(files[0], packMethod, window, compress)),
        MembersBytes(files[1..], packMethod, window, compress);
      assert MembersBytes(files, packMethod, window, compress) + end == first + (rest + end);
      HasAtSplit(d, pos, first, rest + end);
      var e := MemberStep(d, pos, files[0], packMethod, log2, compress);
      MembersWalk(d, pos + |first|, files[1..], packMethod, log2, compress, cancel, polls + 1);
      DescribesCons(e, Walk(d, pos + |first|, false, cancel, polls + 1, 0).entries, files, packMethod, window,
          compress, d);
    }
  }

  lemma WrapNonempty(body: Bytes)
    ensures |WrapBlock(body)| > 4
  {
    hide Le32, CrcOf, EncodeVint;
  }

  /** Listing a created archive, in memory, gives back every input in order. */
  lemma CreatedLists(files: seq<Input>, packMethod: nat, log2: nat, compress: Compressor, cancel: nat -> bool)
    requires InputsOk(files) && SizesOk(files) && ArgsOk(packMethod, log2) && forall k :: !cancel(k)
    ensures var d := ArchiveBytes(files, packMethod, WindowFromLog2(log2), compress);
      && ListMem(d, cancel).code == RarOk
      && DescribesAll(ListMem(d, cancel).entries, files, packMethod, WindowFromLog2(log2), compress, d)
  {
    hide StepAt, WrapBlock, MainBody, EndBody, MembersBytes, WindowFromLog2, InputsOk, DescribesAll, FirstAccepted;
    var window := WindowFromLog2(log2);
    var d := ArchiveBytes(files, packMethod, window, compress);
    var main, rest := WrapBlock(MainBody()), MembersBytes(files, packMethod, window, compress) + WrapBlock(EndBody());
    assert HasAt(d, 0, SIGNATURE + (main + rest));
    HasAtSplit(d, 0, SIGNATURE, main + rest);
    HasAtSplit(d, 8, main, rest);
    WrapNonempty(MainBody());
    MainStep(d, 8);
    MembersWalk(d, 8 + |main|, files, packMethod, log2, compress, cancel, 1);
    var w := Walk(d, 8 + |main|, false, cancel, 1, 0);
    assert Walk(d, 8, false, cancel, 0, 0) == Prepend([], [8], w);
    assert [] + w.entries == w.entries;
  }

  /** The streaming surface lists it the same way. */
  lemma CreatedListsStreamed(files: seq<Input>, packMethod: nat, log2: nat, compress: Compressor, cancel: nat -> bool)
    requires InputsOk(files) && SizesOk(files) && ArgsOk(packMethod, log2) && forall k :: !cancel(k)
    ensures var d := ArchiveBytes(files, packMethod, WindowFromLog2(log2), compress);
      && ListStream(d, false, cancel).code == RarOk
      && DescribesAll(ListStream(d, false, cancel).entries, files, packMethod, WindowFromLog2(log2), compress, d)
  {
    hide ListMem, ListStream, StopsAtCrypt, PeekSuffices, ArchiveBytes, WindowFromLog2, InputsOk, DescribesAll, HasAt,
         Walk;
    var d := ArchiveBytes(files, packMethod, WindowFromLog2(log2), compress);
    CreatedLists(files, packMethod, log2, compress, cancel);
    StartsSigned(files, packMethod, WindowFromLog2(log2), compress);
    SignedSuffices(d);
    ListingsAgree(d, cancel);
  }

  lemma StartsSigned(files: seq<Input>, packMethod: nat, window: nat, compress: Compressor)
    ensures HasAt(ArchiveBytes(files, packMethod, window, compress), 0, SIGNATURE)
  {
    hide WrapBlock, MainBody, EndBody, MembersBytes;
  }

  lemma SignedSuffices(d: Bytes)
    requires HasAt(d, 0, SIGNATURE)
    ensures PeekSuffices(d)
  {
    hide FirstAccepted;
  }

  /** A modification time survives the archive, to two seconds, exactly when it is unset or lies between 1980 and
      the end of the 32-bit field. */
  lemma MtimeKept(t: nat)
    ensures DosToUnix(UnixToDos(t % TWO32)) == t - t % 2 <==> t == 0 || DOS_START <= t < TWO32
  {
    hide UnixToDos, DosToUnix;
    DosRoundTrip(t % TWO32);
    NarrowedStays(t % TWO32);
  }

  lemma NarrowedStays(t: nat)
    requires t < TWO32
    ensures DosToUnix(UnixToDos(t)) < TWO32
  {
    hide GmTime, YearStart, Pack, TimeGm;
    if t != 0 {
      var tm := GmTime(t);
      Landmarks();
      YearWithin(t, 1980);
      YearWithin(t, 2108);
      if t >= DOS_START {
        DosRoundTrip(t);
      } else {
        EarlyClamped(t);
      }
    }
  }

  lemma EarlyClamped(t: nat)
    requires 0 < t < DOS_START
    ensures DosToUnix(UnixToDos(t)) < TWO32
  {
    hide GmTime, YearStart, Pack, MonthStart;
    Landmarks();
    YearWithin(t, 1980);
    var tm := GmTime(t).(year := 1980);
    Repacked(tm);
    YearOfMonths(1980);
    MonthStartMonotone(1980, tm.month, 13);
  }
}
