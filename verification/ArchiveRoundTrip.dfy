/** Extracting what create_archive wrote: src/archive/buffer_archive.cpp, for any codec whose decoder undoes its
    compressor. */
module ArchiveRoundTrip {
  import opened Options
  import opened ByteStrings
  import opened Headers
  import opened HeaderWalk
  import opened Listing
  import opened PathRules
  import opened PowersOfTwo
  import opened CreateArchive
  import opened ContainerRoundTrip
  import opened Extraction
  import opened ExtractAll
  import opened Collisions

  /** The decoder gives back what was compressed, in whatever chunks. */
  ghost predicate Inverts(decode: Decoder, compress: Compressor) {
    forall data, packMethod, window :: compress(data, packMethod, window).Some? ==>
      var run := decode(compress(data, packMethod, window).value, window, false, |data|);
      run.error == None && Concat(run.chunks) == data
  }

  lemma {:induction false} CollectAll(chunks: seq<Bytes>, out: Bytes, total: nat)
    requires |out| + |Concat(chunks)| <= HARD_MEMBER_CAP
    ensures Collect(chunks, out, None, total) == (false, out + Concat(chunks))
    decreases |chunks|
  {
    if chunks == [] {
      assert out + [] == out;
    } else {
      CollectAll(chunks[1..], out + chunks[0], total);
      assert out + chunks[0] + Concat(chunks[1..]) == out + (chunks[0] + Concat(chunks[1..]));
    }
  }

  /** Kept only when it was compressed: such a member is under the hard cap or not extracted at all. */
  predicate TooLarge(f: Input, m: Member) { m.block.packMethod != 0 && |f.data| > 68719476736 }

  /** A run whose chunks make up the declared size is kept whole, for any window up to 64 GiB; a header without one
      means 32 MiB. */
  lemma DecompressGood(payload: Bytes, e: Entry, total: nat, decode: Decoder, data: Bytes)
    requires e.size == |data| <= 68719476736 && e.winSize <= 68719476736
    requires var run := decode(payload, if e.winSize == 0 then 33554432 else e.winSize, e.extraDist, |data|);
      run.error == None && Concat(run.chunks) == data
    ensures Decompress(payload, e, None, total, decode) == Extract(RarOk, data, true)
  {
    hide Collect;
    CollectAll(decode(payload, WindowOf(e), e.extraDist, |data|).chunks, [], total);
    assert [] + data == data;
  }

  lemma PackedExtracts(f: Input, e: Entry, packMethod: nat, log2: nat, compress: Compressor, total: nat,
      decode: Decoder)
    requires ArgsOk(packMethod, log2) && Inverts(decode, compress)
    requires Packed(f, packMethod, WindowFromLog2(log2), compress).Some?
    requires e.size == |f.data| && e.packMethod == packMethod && e.winSize == WindowFromLog2(log2) && !e.extraDist
    ensures var c := Packed(f, packMethod, WindowFromLog2(log2), compress).value;
      Decompress(c, e, None, total, decode) ==
        if |f.data| > HARD_MEMBER_CAP then Extract(ErrLimit, [], false) else Extract(RarOk, f.data, true)
  {
    hide Collect, Pow2;
    var window := WindowFromLog2(log2);
    var c := Packed(f, packMethod, window, compress).value;
    SmallWindow(log2);
    assert compress(f.data, packMethod, window) == Some(c);
    if |f.data| <= HARD_MEMBER_CAP { DecompressGood(c, e, total, decode, f.data); }
  }

  lemma SmallWindow(log2: nat)
    requires 1 <= log2 <= 4
    ensures 0 < WindowFromLog2(log2) <= ALLOC_LIMIT
  {
    hide Pow2;
    Pow2Grows(log2 - 1, 3);
    Pow2Next(0);
    Pow2Next(1);
    Pow2Next(2);
  }

  /** One listed entry of a created archive extracts to its input, unless it was compressed and exceeds the hard cap. */
  lemma EntryExtracts(d: Bytes, e: Entry, f: Input, packMethod: nat, log2: nat, compress: Compressor,
                      total: nat, decode: Decoder, digest: Digest)
    requires InputOk(f) && ArgsOk(packMethod, log2) && Inverts(decode, compress)
    requires Describes(e, f, MakeMember(f, packMethod, WindowFromLog2(log2), compress), d)
    ensures var x := ExtractEntry(d, e, None, total, decode, digest);
      if TooLarge(f, MakeMember(f, packMethod, WindowFromLog2(log2), compress)) then x.code == ErrLimit
      else x.code == RarOk && x.out == f.data
  {
    hide CrcOf, Decompress, WindowFromLog2, ValidPath, Inverts;
    if f.data != [] {
      var m := MakeMember(f, packMethod, WindowFromLog2(log2), compress);
      NameAt(d, e.dataOffset, m.payload);
      if Packed(f, packMethod, WindowFromLog2(log2), compress).Some? {
        PackedExtracts(f, e, packMethod, log2, compress, total, decode);
      }
    }
  }

  /** Create, list, extract: entry i is described as input i and extracts to exactly its bytes, for stored members,
      for members stored after a failed attempt, and for compressed members up to the hard cap. */
  lemma CreateListExtract(files: seq<Input>, packMethod: nat, log2: nat, compress: Compressor, cancel: nat -> bool,
                          decode: Decoder, digest: Digest, i: nat)
    requires InputsOk(files) && SizesOk(files) && ArgsOk(packMethod, log2) && Inverts(decode, compress)
    requires (forall k :: !cancel(k)) && i < |files|
    ensures var d := ArchiveBytes(files, packMethod, WindowFromLog2(log2), compress);
      var m := MakeMember(files[i], packMethod, WindowFromLog2(log2), compress);
      var r := ListMem(d, cancel);
      && r.code == RarOk && |r.entries| == |files| && Describes(r.entries[i], files[i], m, d)
      && var x := ExtractEntry(d, r.entries[i], None, 0, decode, digest);
         x.out == files[i].data && x.code == RarOk <==> !TooLarge(files[i], m)
  {
    hide ArchiveBytes, ListMem, WindowFromLog2, MakeMember, InputOk, Describes, ExtractEntry, Inverts;
    CreatedLists(files, packMethod, log2, compress, cancel);
    var d := ArchiveBytes(files, packMethod, WindowFromLog2(log2), compress);
    EntryExtracts(d, ListMem(d, cancel).entries[i], files[i], packMethod, log2, compress, 0, decode, digest);
  }

  // ----- extract_all

  function Outputs(files: seq<Input>): seq<Extracted> {
    seq(|files|, i requires 0 <= i < |files| => Extracted(files[i].path, files[i].data))
  }

  lemma {:induction false} BytesGrow(files: seq<Input>, i: nat)
    requires i <= |files|
    ensures InputBytes(files[..i]) <= InputBytes(files)
    decreases |files|
  {
    if i == |files| {
      assert files[..i] == files;
    } else {
      var most := files[..|files| - 1];
      assert most[..i] == files[..i];
      BytesGrow(most, i);
    }
  }

  lemma BytesStep(files: seq<Input>, i: nat)
    requires i < |files|
    ensures InputBytes(files[..i + 1]) == InputBytes(files[..i]) + |files[i].data|
  {
    assert files[..i + 1][..i] == files[..i];
  }

  lemma {:induction false} RestExtracts(d: Bytes, entries: seq<Entry>, files: seq<Input>, i: nat, packMethod: nat,
      log2: nat, compress: Compressor,
                                        total: nat, decode: Decoder, digest: Digest, cancel: nat -> bool)
    requires InputsOk(files) && ArgsOk(packMethod, log2) && Inverts(decode, compress) && forall k :: !cancel(k)
    requires DescribesAll(entries, files, packMethod, WindowFromLog2(log2), compress, d)
    requires i <= |files| && InputBytes(files[..i]) <= MAX_TOTAL_OUTPUT
    ensures var r := ExtractFrom(d, entries, i, InputBytes(files[..i]), total, None, decode, digest, cancel);
      if InputBytes(files) <= MAX_TOTAL_OUTPUT then r == AllResult(RarOk, Outputs(files[i..]), total)
        else r.code == ErrNoMem
    decreases |files| - i
  {
    hide Describes, MakeMember, WindowFromLog2, InputsOk, Inverts, ExtractEntry, InputBytes, ExtractFrom, Outputs,
         Over, Charge;
    if i == |files| {
      assert files[..i] == files && files[i..] == [];
      AtEnd(d, entries, InputBytes(files[..i]), total, None, decode, digest, cancel, []);
      NoOutputs(files[i..]);
    } else {
      EntryGives(d, entries, files, i, packMethod, log2, compress, total, decode, digest);
      Unfold(d, entries, i, InputBytes(files[..i]), total, None, decode, digest, cancel, []);
      BytesStep(files, i);
      BytesGrow(files, i + 1);
      if InputBytes(files[..i + 1]) <= MAX_TOTAL_OUTPUT {
        RestExtracts(d, entries, files, i + 1, packMethod, log2, compress, total, decode, digest, cancel);
        OutputsStep(files, i);
      }
      var r := ExtractFrom(d, entries, i, InputBytes(files[..i]), total, None, decode, digest, cancel);
      assert [] + r.files == r.files;
    }
  }

  lemma NoOutputs(none: seq<Input>)
    ensures none == [] ==> Outputs(none) == []
  {
  }

  lemma OutputsStep(files: seq<Input>, i: nat)
    requires i < |files|
    ensures [] + [Extracted(files[i].path, files[i].data)] + Outputs(files[i + 1..]) == Outputs(files[i..])
  {
  }

  lemma EntryGives(d: Bytes, entries: seq<Entry>, files: seq<Input>, i: nat, packMethod: nat, log2: nat,
      compress: Compressor,
                   total: nat, decode: Decoder, digest: Digest)
    requires InputsOk(files) && ArgsOk(packMethod, log2) && Inverts(decode, compress) && i < |files|
    requires DescribesAll(entries, files, packMethod, WindowFromLog2(log2), compress, d)
    ensures |entries| == |files|
    ensures var e, f, x := entries[i], files[i], ExtractEntry(d, entries[i], None, total, decode, digest);
      && e.path == f.path && e.size == |f.data| && (e.isDir ==> f.data == [])
      && !Over(None, e.size, total) && Charge(x, None, total) == total
      && (|f.data| <= MAX_TOTAL_OUTPUT ==> x.code == RarOk && x.out == f.data)
  {
    hide MakeMember, WindowFromLog2, ValidPath, Inverts, ExtractEntry;
    assert Describes(entries[i], files[i], MakeMember(files[i], packMethod, WindowFromLog2(log2), compress), d);
    assert InputOk(files[i]);
    EntryExtracts(d, entries[i], files[i], packMethod, log2, compress, total, decode, digest);
  }

  function InputItems(files: seq<Input>): seq<Item> {
    seq(|files|, i requires 0 <= i < |files| => Item(files[i].path, IsDirPath(files[i].path)))
  }

  lemma ListedItems(entries: seq<Entry>, files: seq<Input>, packMethod: nat, window: nat, compress: Compressor,
      d: Bytes)
    requires DescribesAll(entries, files, packMethod, window, compress, d)
    ensures Items(entries) == InputItems(files)
  {
    hide MakeMember;
    forall i | 0 <= i < |files| ensures entries[i].path == files[i].path &&
      entries[i].isDir == IsDirPath(files[i].path) {
      assert Describes(entries[i], files[i], MakeMember(files[i], packMethod, window, compress), d);
    }
  }

  /** extract_all on a created archive gives back every path and every byte, exactly when the inputs together are
      within the aggregate cap and no two of them collide. */
  lemma CreateExtractAll(files: seq<Input>, packMethod: nat, log2: nat, compress: Compressor, decode: Decoder,
      digest: Digest,
                         fold: Bytes -> Bytes, nfc: Bytes -> Bytes, cancel: nat -> bool)
    requires InputsOk(files) && SizesOk(files) && ArgsOk(packMethod, log2) && Inverts(decode, compress) &&
        forall k :: !cancel(k)
    ensures var d := ArchiveBytes(files, packMethod, WindowFromLog2(log2), compress);
      RunResult(d, None, 0, decode, digest, fold, nfc, cancel) == AllResult(RarOk, Outputs(files), 0) <==>
      InputBytes(files) <= 68719476736 && !Colliding(Views(InputItems(files), fold, nfc))
  {
    hide ArchiveBytes, ListMem, WindowFromLog2, MakeMember, InputsOk, DescribesAll, ExtractFrom, Inverts, Colliding,
         Views, Items, InputItems;
    var d := ArchiveBytes(files, packMethod, WindowFromLog2(log2), compress);
    CreatedLists(files, packMethod, log2, compress, Never);
    var entries := ListMem(d, Never).entries;
    ListedItems(entries, files, packMethod, WindowFromLog2(log2), compress, d);
    assert InputBytes(files[..0]) == 0 && files[0..] == files;
    RestExtracts(d, entries, files, 0, packMethod, log2, compress, 0, decode, digest, cancel);
  }

  /** An input given twice is archived without complaint, and extract_all then refuses the archive. */
  lemma SamePathTwiceRefused(f: Input, packMethod: nat, log2: nat, compress: Compressor, limits: Option<Limits>,
      decode: Decoder, digest: Digest,
                             fold: Bytes -> Bytes, nfc: Bytes -> Bytes, cancel: nat -> bool)
    requires InputOk(f) && |f.data| <= INT64_MAX && ArgsOk(packMethod, log2)
    ensures InputsOk([f, f])
    ensures RunResult(ArchiveBytes([f, f], packMethod, WindowFromLog2(log2), compress), limits, 0, decode, digest,
        fold, nfc, cancel)
      == AllResult(ErrNotRar, [], 0)
  {
    hide ArchiveBytes, ListMem, WindowFromLog2, MakeMember, InputOk, DescribesAll, ExtractFrom, Colliding, Views,
         Items, InputItems;
    var files := [f, f];
    var d := ArchiveBytes(files, packMethod, WindowFromLog2(log2), compress);
    CreatedLists(files, packMethod, log2, compress, Never);
    ListedItems(ListMem(d, Never).entries, files, packMethod, WindowFromLog2(log2), compress, d);
    SameItemsCollide(files, fold, nfc);
  }

  lemma SameItemsCollide(files: seq<Input>, fold: Bytes -> Bytes, nfc: Bytes -> Bytes)
    requires |files| == 2 && files[0].path == files[1].path
    ensures Colliding(Views(InputItems(files), fold, nfc))
  {
    hide Split;
    var views := Views(InputItems(files), fold, nfc);
    assert Alike(views[0], views[1]);
    assert Later(views, 1);
  }
}
