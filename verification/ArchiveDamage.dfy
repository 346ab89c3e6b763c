/** Damage to what create_archive of src/archive/buffer_archive.cpp wrote, and what listing and extraction make of
    it. */
module ArchiveDamage {
  import opened Options
  import opened ByteStrings
  import opened BlockFrame
  import opened HeaderWalk
  import opened Signature
  import opened Listing
  import opened ListingDamage
  import opened CreateArchive
  import opened ContainerRoundTrip
  import opened Extraction
  import opened ExtractAll
  import opened ArchiveRoundTrip
  import Collisions
  import Headers
  import PathRules

  /** The headers that the listing of a created archive reads. */
  ghost function HeaderPlaces(d: Bytes, cancel: nat -> bool): seq<nat> { Walk(d, 8, false, cancel, 0, 0).events }

  /** The main header and every entry's header are among them, and all of them can be read. */
  lemma CreatedHeaders(files: seq<Input>, packMethod: nat, log2: nat, compress: Compressor, cancel: nat -> bool)
    requires InputsOk(files) && SizesOk(files) && ArgsOk(packMethod, log2) && forall k :: !cancel(k)
    ensures var d := ArchiveBytes(files, packMethod, WindowFromLog2(log2), compress);
      && 8 in HeaderPlaces(d, cancel)
      && (forall at :: at in HeaderPlaces(d, cancel) ==> ReadBlock(d, at).Ok?)
      && (forall e :: e in ListMem(d, cancel).entries ==> e.headerOffset in HeaderPlaces(d, cancel) && HeaderOf(d, e))
  {
    hide ArchiveBytes, WindowFromLog2, InputsOk, DescribesAll, Walk, ReadBlock, HeaderOf, FirstAccepted, HasBit;
    var d := ArchiveBytes(files, packMethod, WindowFromLog2(log2), compress);
    CreatedLists(files, packMethod, log2, compress, cancel);
    StartsSigned(files, packMethod, WindowFromLog2(log2), compress);
    WalkReads(d, 8, false, cancel, 0, 0);
    LongerThanSigned(files, packMethod, WindowFromLog2(log2), compress);
    FirstEvent(d, 8, cancel);
  }

  lemma FirstEvent(d: Bytes, pos: nat, cancel: nat -> bool)
    requires pos < |d| && !cancel(0)
    ensures pos in Walk(d, pos, false, cancel, 0, 0).events
  {
    hide StepAt;
  }

  lemma LongerThanSigned(files: seq<Input>, packMethod: nat, window: nat, compress: Compressor)
    ensures |ArchiveBytes(files, packMethod, window, compress)| > 8
  {
    hide WrapBlock, Headers.MainBody, Headers.EndBody, MembersBytes;
    WrapNonempty(Headers.MainBody());
  }

  /** A created archive with a damaged header, up to four consecutive bytes of it or its checksum, is never listed. */
  lemma CreatedHeaderDamage(files: seq<Input>, packMethod: nat, log2: nat, compress: Compressor, cancel: nat -> bool,
      at: nat, d': Bytes, lo: nat, hi: nat)
    requires InputsOk(files) && SizesOk(files) && ArgsOk(packMethod, log2) && forall k :: !cancel(k)
    requires at in HeaderPlaces(ArchiveBytes(files, packMethod, WindowFromLog2(log2), compress), cancel)
    requires HeaderDamage(ArchiveBytes(files, packMethod, WindowFromLog2(log2), compress), d', at, lo, hi)
    ensures ListMem(d', cancel).code == ErrTruncated && ListStream(d', false, cancel).code == ErrTruncated
  {
    hide ArchiveBytes, WindowFromLog2, InputsOk, Walk, ReadBlock, HeaderDamage, ListMem, ListStream, HeaderOf, HasAt;
    var d := ArchiveBytes(files, packMethod, WindowFromLog2(log2), compress);
    CreatedHeaders(files, packMethod, log2, compress, cancel);
    StartsSigned(files, packMethod, WindowFromLog2(log2), compress);
    DamagedHeaderNotListed(d, d', false, cancel, at, lo, hi);
  }

  /** Up to four consecutive damaged bytes in the payload of a stored member: the listing stays as it was, extracting
      the member reports the checksum, and extract_all does not succeed. */
  lemma CreatedPayloadDamage(files: seq<Input>, packMethod: nat, log2: nat, compress: Compressor, decode: Decoder,
      digest: Digest, fold: Bytes -> Bytes, nfc: Bytes -> Bytes, limits: Option<Limits>, cancel: nat -> bool, i: nat,
      d': Bytes, lo: nat, hi: nat)
    requires InputsOk(files) && SizesOk(files) && ArgsOk(packMethod, log2) && Inverts(decode, compress)
    requires i < |files| && files[i].data != []
    requires Packed(files[i], packMethod, WindowFromLog2(log2), compress) == None
    requires PayloadDamage(ArchiveBytes(files, packMethod, WindowFromLog2(log2), compress), d', i, lo, hi)
    ensures var d := ArchiveBytes(files, packMethod, WindowFromLog2(log2), compress);
      && ListMem(d', Never) == ListMem(d, Never) && ListStream(d', false, Never) == ListStream(d, false, Never)
      && ExtractEntry(d', ListMem(d, Never).entries[i], None, 0, decode, digest).code == ErrCrc
      && RunResult(d', limits, 0, decode, digest, fold, nfc, cancel).code != RarOk
  {
    hide ArchiveBytes, WindowFromLog2, ListMem, ListStream, ExtractEntry, InputOk, Inverts, RunResult, DiffersIn, HasAt,
         CrcOf, Checked;
    var d := ArchiveBytes(files, packMethod, WindowFromLog2(log2), compress);
    CreateListExtract(files, packMethod, log2, compress, Never, decode, digest, i);
    StartsSigned(files, packMethod, WindowFromLog2(log2), compress);
    var e := ListMem(d, Never).entries[i];
    NotDirectory(files[i]);
    DamagedPayloadListed(d, d', Never, e, lo, hi);
    DamagedPayload(d, d', e, None, 0, decode, digest, lo, hi);
    if RunResult(d', limits, 0, decode, digest, fold, nfc, cancel).code == RarOk {
      RunChecks(d', limits, decode, digest, fold, nfc, cancel, i);
      var out :| Checked(d', e, out, digest);
      DamageFails(d, d', e, files[i].data, out, digest, lo, hi);
    }
  }

  /** The damage lies in the payload of entry i of the listing. */
  ghost predicate PayloadDamage(d: Bytes, d': Bytes, i: nat, lo: nat, hi: nat) {
    var entries := ListMem(d, Never).entries;
    i < |entries| && DiffersIn(d, d', lo, hi) && entries[i].dataOffset <= lo && hi <= End(entries[i]) && hi <= lo + 4
  }

  lemma NotDirectory(f: Input)
    requires InputOk(f) && f.data != []
    ensures !PathRules.IsDirPath(f.path)
  {
    hide PathRules.ValidPath;
  }

  /** What a run that succeeds says of entry i. */
  lemma RunChecks(d: Bytes, limits: Option<Limits>, decode: Decoder, digest: Digest, fold: Bytes -> Bytes,
      nfc: Bytes -> Bytes, cancel: nat -> bool, i: nat)
    requires RunResult(d, limits, 0, decode, digest, fold, nfc, cancel).code == RarOk
    requires i < |ListMem(d, Never).entries| && !ListMem(d, Never).entries[i].isDir
    ensures exists out :: Checked(d, ListMem(d, Never).entries[i], out, digest)
  {
    hide ListMem, ExtractFrom, Checked, Collisions.Colliding, Collisions.Views, Items;
    var entries := ListMem(d, Never).entries;
    SuccessMatches(d, entries, 0, 0, 0, limits, decode, digest, cancel);
    assert entries[0..][i] == entries[i];
    var files := ExtractFrom(d, entries, 0, 0, 0, limits, decode, digest, cancel).files;
    assert Checked(d, entries[i], files[i].data, digest);
  }

  lemma DamageFails(d: Bytes, d': Bytes, e: Entry, data: Bytes, out: Bytes, digest: Digest, lo: nat, hi: nat)
    requires DiffersIn(d, d', lo, hi) && e.dataOffset <= lo && hi <= End(e) && hi <= lo + 4
    requires HasAt(d, e.dataOffset, data) && 0 < |data| == e.packedSize && e.crc == Some(CrcOf(data))
    requires e.packMethod == 0
    ensures !Checked(d', e, out, digest)
  {
    hide CrcOf, DiffersIn;
    DamageChangesCrc(d, d', lo, hi, e.dataOffset, End(e));
  }
}
