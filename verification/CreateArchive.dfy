/** create_archive_impl of src/archive/buffer_archive.cpp, over an abstract compressor. */
module CreateArchive {
  import opened Options
  import opened ByteStrings
  import opened BlockFrame
  import opened Headers
  import opened Signature
  import opened Listing
  import opened PathRules
  import opened PowersOfTwo
  import opened ProgressTrackers

  datatype Input = Input(path: Bytes, data: Bytes, mtime: nat)

  /** What to compress with: the bytes, the method and the window; None when the compressor fails. */
  type Compressor = (Bytes, nat, nat) -> Option<Bytes>

  function WindowFromLog2(log2: nat): nat
    requires 1 <= log2 <= 4
  {
    DICT_BASE * Pow2(log2 - 1)
  }

  /** 128 KiB, 256 KiB, 512 KiB and 1 MiB. */
  lemma WindowTable()
    ensures WindowFromLog2(1) == 131072 && WindowFromLog2(2) == 262144
    ensures WindowFromLog2(3) == 524288 && WindowFromLog2(4) == 1048576
  {
  }

  predicate ArgsOk(packMethod: nat, log2: nat) {
    (packMethod == 0 || packMethod == 3 || packMethod == 5) && 1 <= log2 <= 4
  }

  ghost predicate InputOk(f: Input) {
    ValidPath(f.path, IsDirPath(f.path)) && (IsDirPath(f.path) ==> f.data == [])
  }

  datatype Member = Member(block: FileBlock, includeData: bool, payload: Bytes)

  function StoredBlock(f: Input): FileBlock {
    FileBlock(false, if IsDirPath(f.path) then FHFL_DIRECTORY else 0, |f.data|, Some(|f.data|), 0x20,
              |f.data| > 0, if |f.data| > 0 then CrcOf(f.data) else 0, f.mtime % TWO32,
              0, false, 0, 0, false, 1, f.path, None, false)
  }

  /** The attempt at compression: kept only when it is non-empty and saves room. */
  function Packed(f: Input, packMethod: nat, window: nat, compress: Compressor): Option<Bytes> {
    if packMethod == 0 || |f.data| == 0 then None
    else
      match compress(f.data, packMethod, window)
      case None => None
      case Some(c) => if 0 < |c| < |f.data| then Some(c) else None
  }

  function MakeMember(f: Input, packMethod: nat, window: nat, compress: Compressor): Member {
    var block := StoredBlock(f);
    match Packed(f, packMethod, window, compress)
    case Some(c) => Member(block.(packSize := Some(|c|), packMethod := packMethod, winSize := window), true, c)
    case None => Member(block, |f.data| > 0, f.data)
  }

  function MemberHeader(m: Member): Bytes { WrapBlock(FileBody(m.block, m.includeData)) }

  function MemberBytes(m: Member): Bytes { MemberHeader(m) + m.payload }

  function MembersBytes(files: seq<Input>, packMethod: nat, window: nat, compress: Compressor): Bytes {
    if files == [] then []
    else MemberBytes(MakeMember(files[0], packMethod, window, compress)) + MembersBytes(files[1..], packMethod, window,
        compress)
  }

  function ArchiveBytes(files: seq<Input>, packMethod: nat, window: nat, compress: Compressor): Bytes {
    SIGNATURE + (WrapBlock(MainBody()) + (MembersBytes(files, packMethod, window, compress) + WrapBlock(EndBody())))
  }

  lemma {:induction false} MembersBytesSnoc(files: seq<Input>, f: Input, packMethod: nat, window: nat,
      compress: Compressor)
    ensures MembersBytes(files + [f], packMethod, window, compress)
      == MembersBytes(files, packMethod, window, compress) + MemberBytes(MakeMember(f, packMethod, window, compress))
  {
    hide MemberBytes, MakeMember;
    if files == [] {
      assert [f][1..] == [];
    } else {
      MembersBytesSnoc(files[1..], f, packMethod, window, compress);
      assert (files + [f])[1..] == files[1..] + [f];
    }
  }

  /** Bytes of all file inputs, which the progress estimate starts from. */
  function InputBytes(files: seq<Input>): nat {
    if files == [] then 0 else InputBytes(files[..|files| - 1]) + |files[|files| - 1].data|
  }

  function EstimatedTotal(files: seq<Input>): nat { InputBytes(files) + 64 + 16 * |files| }

  ghost predicate InputsOk(files: seq<Input>) { forall i :: 0 <= i < |files| ==> InputOk(files[i]) }

  method ValidateInputs(files: seq<Input>) returns (ok: bool, total: nat)
    ensures ok <==> InputsOk(files)
    ensures ok ==> total == InputBytes(files)
  {
    hide ValidPath;
    total := 0;
    for i := 0 to |files|
      invariant forall k :: 0 <= k < i ==> InputOk(files[k])
      invariant total == InputBytes(files[..i])
    {
      var isDir := IsDirPath(files[i].path);
      var valid := ValidatePath(files[i].path, isDir);
      if !valid || (isDir && files[i].data != []) { return false, total; }
      assert files[..i + 1][..i] == files[..i];
      if !isDir { total := total + |files[i].data|; }
    }
    assert files[..|files|] == files;
    ok := true;
  }

  /** The header and payload of one input, appended to `out`. */
  method EmitMember(out: Bytes, f: Input, packMethod: nat, window: nat, compress: Compressor) returns (more: Bytes)
    ensures more == out + MemberBytes(MakeMember(f, packMethod, window, compress))
  {
    hide WrapBlock, FileBody, CrcOf;
    var block := StoredBlock(f);
    if |f.data| == 0 {
      more := out + WrapBlock(FileBody(block, false));
      assert MakeMember(f, packMethod, window, compress) == Member(block, false, []);
    } else {
      if packMethod != 0 {
        var packed := compress(f.data, packMethod, window);
        if packed.Some? && |packed.value| != 0 && |packed.value| < |f.data| {
          block := block.(packMethod := packMethod, winSize := window, packSize := Some(|packed.value|));
          more := out + WrapBlock(FileBody(block, true)) + packed.value;
          assert MakeMember(f, packMethod, window, compress) == Member(block, true, packed.value);
          return;
        }
      }
      more := out + WrapBlock(FileBody(block, true)) + f.data;
      assert MakeMember(f, packMethod, window, compress) == Member(block, true, f.data);
    }
  }

  lemma ArgsRange(packMethod: nat, log2: nat)
    ensures ArgsOk(packMethod, log2) ==> 1 <= log2 <= 4
  {
  }

  lemma EstimateIs(files: seq<Input>)
    ensures EstimatedTotal(files) == InputBytes(files) + 64 + 16 * |files|
  {
  }

  lemma SteadyNone(total: nat)
    ensures Steady([], total)
  {
  }

  lemma NoMembers(packMethod: nat, window: nat, compress: Compressor)
    ensures MembersBytes([], packMethod, window, compress) == []
  {
  }

  lemma NextMember(head: Bytes, files: seq<Input>, i: nat, packMethod: nat, window: nat, compress: Compressor)
    requires i < |files|
    ensures head + MembersBytes(files[..i + 1], packMethod, window, compress)
      == head + MembersBytes(files[..i], packMethod, window,
          compress) + MemberBytes(MakeMember(files[i], packMethod, window, compress))
  {
    hide MembersBytes, MakeMember, MemberBytes;
    MembersBytesSnoc(files[..i], files[i], packMethod, window, compress);
    assert files[..i + 1] == files[..i] + [files[i]];
  }

  lemma WholeArchive(files: seq<Input>, packMethod: nat, window: nat, compress: Compressor)
    ensures SIGNATURE + WrapBlock(MainBody()) + MembersBytes(files[..|files|], packMethod, window,
        compress) + WrapBlock(EndBody())
      == ArchiveBytes(files, packMethod, window, compress)
  {
    hide MembersBytes, WrapBlock, MainBody, EndBody;
    assert files[..|files|] == files;
  }

  /** create_archive_impl; cancel(k) is the answer to the poll before entry k. */
  method Create(files: seq<Input>, packMethod: nat, log2: nat, compress: Compressor, cancel: nat -> bool)
    returns (code: Code, out: Bytes, reports: seq<(nat, nat)>)
    ensures code == ErrInvalidArg || code == ErrAborted || code == RarOk
    ensures code == ErrInvalidArg <==> !ArgsOk(packMethod, log2) || !InputsOk(files)
    ensures code == ErrAborted ==> exists k :: 0 <= k < |files| && cancel(k)
    ensures code == RarOk ==> out == ArchiveBytes(files, packMethod, WindowFromLog2(log2), compress)
    ensures code == RarOk ==> forall k :: 0 <= k < |files| ==> !cancel(k)
    ensures Steady(reports, EstimatedTotal(files))
  {
    hide *;
    ArgsRange(packMethod, log2);
    EstimateIs(files);
    SteadyNone(EstimatedTotal(files));
    out, reports := [], [];
    if !ArgsOk(packMethod, log2) { return ErrInvalidArg, out, reports; }
    var window := WindowFromLog2(log2);
    var ok, inputBytes := ValidateInputs(files);
    if !ok { return ErrInvalidArg, out, reports; }
    ghost var head := SIGNATURE + WrapBlock(MainBody());
    NoMembers(packMethod, window, compress);
    out := SIGNATURE;
    var total := inputBytes + 64 + 16 * |files|;
    var prog := new ProgressTracker(total);
    prog.Set(0, total);
    out := out + WrapBlock(MainBody());
    for i := 0 to |files|
      invariant prog.Valid(total) && Steady(prog.reports, total)
      invariant out == head + MembersBytes(files[..i], packMethod, window, compress)
      invariant forall k :: 0 <= k < i ==> !cancel(k)
    {
      if cancel(i) { return ErrAborted, out, prog.reports; }
      NextMember(head, files, i, packMethod, window, compress);
      out := EmitMember(out, files[i], packMethod, window, compress);
      prog.Set(|out|, total);
    }
    WholeArchive(files, packMethod, window, compress);
    out := out + WrapBlock(EndBody());
    prog.Set(|out|, total);
    if |out| >= total { prog.Set(total, total); }
    code, reports := RarOk, prog.reports;
  }
}
