/** The two listing surfaces, BufferArchive::list and list_file_stream of src/archive/buffer_archive.cpp. */
module Listing {
  import opened ByteStrings
  import opened BlockFrame
  import opened Headers
  import opened HeaderWalk
  import opened Signature

  datatype Code =
    | RarOk | ErrTruncated | ErrNotRar | ErrAborted | ErrUnsupported | ErrEncrypted
    | ErrInvalidArg | ErrLimit | ErrCrc | ErrNoMem | ErrPartial

  /** `events` are the progress reports: bytes done, out of the archive size. */
  datatype ListResult = ListResult(code: Code, entries: seq<Entry>, events: seq<nat>)

  /** The boundary layer: internal status to public code; only the streaming surface signals a password. */
  function CodeOf(w: Outcome, streamed: bool): Code {
    match w.status
    case Aborted => ErrAborted
    case Truncated => ErrTruncated
    case CryptHeader => if streamed then ErrEncrypted else ErrUnsupported
    case EncryptedFile => ErrUnsupported
    case SolidHeader => ErrUnsupported
    case Done => if HasBit(w.arcFlags, MHFL_VOLUME) || HasBit(w.arcFlags, MHFL_PROTECT) then ErrUnsupported else RarOk
  }

  /** A walk counts as a listing exactly when it ended well in an archive that is no volume (bit 1 of the archive
      flags) and has no recovery record (bit 8). */
  lemma ListedExactly(w: Outcome, streamed: bool)
    ensures CodeOf(w, streamed) == RarOk <==> w.status == Done && w.arcFlags % 2 == 0 && w.arcFlags / 8 % 2 == 0
    ensures CodeOf(w, streamed) == ErrTruncated <==> w.status == Truncated
    ensures CodeOf(w, streamed) == ErrAborted <==> w.status == Aborted
    ensures CodeOf(w, streamed) == ErrEncrypted <==> w.status == CryptHeader && streamed
    ensures CodeOf(w, streamed) in {RarOk, ErrTruncated, ErrAborted, ErrEncrypted, ErrUnsupported}
  {
  }

  function Conclude(d: Bytes, before: seq<nat>, sig: nat, w: Outcome, streamed: bool): ListResult {
    var code := CodeOf(w, streamed);
    if code == RarOk then ListResult(code, w.entries, before + [sig] + w.events + [|d|])
    else ListResult(code, [], before + [sig] + w.events)
  }

  function ListMem(d: Bytes, cancel: nat -> bool): ListResult {
    if |d| == 0 then ListResult(ErrTruncated, [], [])
    else
      match Search(d, false)
      case None => ListResult(ErrNotRar, [], [])
      case Some(sig) => Conclude(d, [], sig, Walk(d, sig + 8, false, cancel, 0, 0), false)
  }

  function ListStream(d: Bytes, emitEncrypted: bool, cancel: nat -> bool): ListResult {
    if |d| == 0 then ListResult(ErrTruncated, [], [])
    else if |d| < 8 then ListResult(ErrNotRar, [], [])
    else
      var scan := if HasAt(d, 0, SIGNATURE) then (Found(0), [], 0) else ChunkScan(d, 0, cancel, 0);
      match scan.0
      case Cancelled => ListResult(ErrAborted, [], scan.1)
      case Missing => ListResult(ErrNotRar, [], scan.1)
      case Found(sig) => Conclude(d, scan.1, sig, Walk(d, sig + 8, emitEncrypted, cancel, scan.2, 0), true)
  }

  /** list_file_stream without a password. */
  method ListFileStream(src: FileStream, emitEncrypted: bool, cancel: nat -> bool) returns (r: ListResult)
    modifies src
    ensures r == ListStream(src.data, emitEncrypted, cancel)
  {
    hide Walk, ChunkScan;
    var d := src.data;
    if |d| == 0 { return ListResult(ErrTruncated, [], []); }
    if |d| < 8 { return ListResult(ErrNotRar, [], []); }
    var sig, events, polls := 0, [], 0;
    src.Seek(0);
    var head := src.Read(8);
    if head != SIGNATURE {
      var scan;
      scan, events, polls := ScanStream(src, cancel);
      match scan
      case Cancelled => return ListResult(ErrAborted, [], events);
      case Missing => return ListResult(ErrNotRar, [], events);
      case Found(at) => sig := at;
    }
    src.Seek(sig + 8);
    var status, entries, arcFlags, walked := WalkHeaders(src, true, emitEncrypted, cancel, polls);
    r := Conclude(d, events, sig, Outcome(status, entries, arcFlags, walked), true);
  }

  // ----- Agreement

  lemma {:induction false} PollsDoNotMatter(d: Bytes, pos: nat, emitEncrypted: bool, cancel: nat -> bool, p: nat,
      q: nat, arcFlags: nat)
    requires forall k :: !cancel(k)
    ensures Walk(d, pos, emitEncrypted, cancel, p, arcFlags) == Walk(d, pos, emitEncrypted, cancel, q, arcFlags)
    decreases |d| - pos
  {
    hide StepAt, Prepend;
    if pos < |d| {
      var s := StepAt(d, pos, emitEncrypted);
      if s.Next? && !s.ended {
        PollsDoNotMatter(d, s.pos, emitEncrypted, cancel, p + 1, q + 1, Latest(arcFlags, s.arcFlags));
      }
    }
  }

  /** What a caller can check: the header that memory search settles on has its two leading integers within the 16
      bytes peeked. */
  predicate PeekSuffices(d: Bytes) {
    var r := Search(d, false);
    r.Some? && r.value != 0 ==> Follows(d, r.value) && PeekFits(d, r.value)
  }

  /** Whether a listing stops at an encryption header. */
  ghost predicate StopsAtCrypt(d: Bytes, cancel: nat -> bool) {
    Search(d, false).Some? && Walk(d, Search(d, false).value + 8, false, cancel, 0, 0).status == CryptHeader
  }

  /** Without cancellation the two surfaces give the same entries and the same code, except that an encryption
      header is reported as encrypted by one and as unsupported by the other. */
  lemma ListingsAgree(d: Bytes, cancel: nat -> bool)
    requires PeekSuffices(d) && forall k :: !cancel(k)
    ensures ListStream(d, false, cancel).entries == ListMem(d, cancel).entries
    ensures !StopsAtCrypt(d, cancel) ==> ListStream(d, false, cancel).code == ListMem(d, cancel).code
    ensures StopsAtCrypt(d, cancel) ==>
        ListStream(d, false, cancel).code == ErrEncrypted && ListMem(d, cancel).code == ErrUnsupported
  {
    hide Walk, ChunkScan, Follows, PeekFits, FirstAccepted;
    SearchesAgree(d);
    ChunkScanFindsFirst(d, 0, cancel, 0);
    if |d| >= 8 {
      var scan := if HasAt(d, 0, SIGNATURE) then (Found(0), [], 0) else ChunkScan(d, 0, cancel, 0);
      if scan.0.Found? { PollsDoNotMatter(d, scan.0.offset + 8, false, cancel, scan.2, 0, 0); }
    }
  }

  // ----- Progress

  /** Reports never fall back, and the total is reported once, last. */
  predicate Completes(events: seq<nat>, total: nat) {
    && |events| > 0 && events[|events| - 1] == total
    && (forall i :: 0 <= i < |events| - 1 ==> events[i] < total)
    && (forall i, j :: 0 <= i < j < |events| ==> events[i] <= events[j])
  }

  lemma ConcludeCompletes(d: Bytes, before: seq<nat>, sig: nat, walked: seq<nat>)
    requires Rising(before, 0, sig + 1) && Rising(walked, sig + 8, |d|) && sig + 8 <= |d|
    ensures Completes(before + [sig] + walked + [|d|], |d|)
  {
  }

  /** In every successful in-memory listing progress is monotone and reaches the total exactly once, at the end. */
  lemma ListProgress(d: Bytes, cancel: nat -> bool)
    requires ListMem(d, cancel).code == RarOk
    ensures Completes(ListMem(d, cancel).events, |d|)
  {
    hide Walk, Rising, Completes, Search, HasBit;
    var sig := Search(d, false).value;
    WalkEvents(d, sig + 8, false, cancel, 0, 0);
    RisingNone(sig + 1);
    ConcludeCompletes(d, [], sig, Walk(d, sig + 8, false, cancel, 0, 0).events);
  }

  lemma RisingNone(hi: nat)
    ensures Rising([], 0, hi)
  {
  }

  lemma {:induction false} ScanEvents(d: Bytes, pos: nat, cancel: nat -> bool, polls: nat)
    requires ChunkScan(d, pos, cancel, polls).0.Found?
    ensures var r := ChunkScan(d, pos, cancel, polls);
      && pos <= r.0.offset && r.0.offset + 8 <= ScanLimit(d)
      && Rising(r.1, pos, r.0.offset + 1)
    decreases ScanLimit(d) - pos
  {
    hide FirstAccepted, Accepts;
    var limit := ScanLimit(d);
    var got := if CHUNK <= limit - pos then CHUNK else limit - pos;
    FirstAcceptedFacts(d, pos, pos + got, true, 0);
    if FirstAccepted(d, pos, pos + got, true).None? {
      ScanEvents(d, pos + (if got > 8 then got - 7 else 1), cancel, polls + 1);
    }
  }

  /** The same of every successful streaming listing, scan included. */
  lemma StreamProgress(d: Bytes, emitEncrypted: bool, cancel: nat -> bool)
    requires ListStream(d, emitEncrypted, cancel).code == RarOk
    ensures Completes(ListStream(d, emitEncrypted, cancel).events, |d|)
  {
    hide Walk, Rising, Completes, ChunkScan, HasBit;
    var scan := if HasAt(d, 0, SIGNATURE) then (Found(0), [], 0) else ChunkScan(d, 0, cancel, 0);
    var sig := scan.0.offset;
    if HasAt(d, 0, SIGNATURE) { RisingNone(sig + 1); } else { ScanEvents(d, 0, cancel, 0); }
    WalkEvents(d, sig + 8, emitEncrypted, cancel, scan.2, 0);
    ConcludeCompletes(d, scan.1, sig, Walk(d, sig + 8, emitEncrypted, cancel, scan.2, 0).events);
  }

  /** Every entry of a successful listing lies inside the archive, after the signature, and no two overlap. */
  lemma ListedExtents(d: Bytes, cancel: nat -> bool)
    requires ListMem(d, cancel).code == RarOk
    ensures Search(d, false).Some? && Laid(ListMem(d, cancel).entries, Search(d, false).value + 8, |d|)
  {
    hide Walk, Laid;
    WalkSafe(d, Search(d, false).value + 8, false, cancel, 0, 0);
  }
}
