/** The two searches for the archive signature: find_rar5_signature and the chunked scan of list_file_stream,
    src/archive/buffer_archive.cpp. */
module Signature {
  import opened Options
  import opened ByteStrings
  import opened Vint
  import opened BlockFrame

  const SIGNATURE: Bytes := [0x52, 0x61, 0x72, 0x21, 0x1A, 0x07, 0x01, 0x00]

  const SFX_SCAN: nat := 4 * 1024 * 1024
  const CHUNK: nat := 65536

  predicate Opens(typ: nat) { typ == HEAD_MAIN || typ == HEAD_CRYPT }

  /** A whole, checksummed main or encryption header follows the signature at i. */
  predicate Follows(d: Bytes, i: nat) {
    ReadBlock(d, i + 8).Ok? && Opens(ReadBlock(d, i + 8).block.fields.typ)
  }

  /** The tests that the one-pass search makes on a candidate. */
  predicate MemAccepts(d: Bytes, i: nat) {
    var off := i + 8;
    && off + 6 <= |d|
    && PeekPasses(d[off + 4..])
    && Follows(d, i)
  }

  /** The cheap look at the size and type integers, given what is visible after the CRC. */
  predicate PeekPasses(visible: Bytes) {
    match ReadVint(visible, 0)
    case None => false
    case Some(size) =>
      && 0 < size.value <= MAX_BODY
      && match ReadVint(visible[size.len..], 0)
         case None => false
         case Some(typ) => Opens(typ.value)
  }

  /** The tests of the chunked scan, which sees only 16 bytes of the header before reading it. */
  predicate StreamAccepts(d: Bytes, i: nat) {
    var off := i + 8;
    var end := if off + 16 <= |d| then off + 16 else |d|;
    && off + 6 <= end
    && PeekPasses(d[off + 4..end])
    && Follows(d, i)
  }

  /** The size and type integers of the header after position i end within the 16 bytes peeked. */
  predicate PeekFits(d: Bytes, i: nat)
    requires Follows(d, i)
  {
    var size := ReadVint(d, i + 12).value;
    size.len + ReadVint(ReadBlock(d, i + 8).block.body, 0).value.len <= 12
  }

  predicate Accepts(d: Bytes, i: nat, streamed: bool) {
    HasAt(d, i, SIGNATURE) && if streamed then StreamAccepts(d, i) else MemAccepts(d, i)
  }

  // ----- What the candidate tests amount to

  /** An integer read from a window is the integer that stands there, and any window that holds it reads the same. */
  lemma VintInWindow(w: Bytes, d: Bytes, pos: nat)
    requires HasAt(d, pos, w) && ReadVint(w, 0).Some?
    ensures ReadVint(d, pos) == ReadVint(w, 0)
  {
    GroupsEnds(w, 0, 0);
    WindowReads(w, d, pos);
  }

  lemma VintFits(w: Bytes, d: Bytes, pos: nat)
    requires HasAt(d, pos, w) && ReadVint(d, pos).Some?
    ensures ReadVint(w, 0) == ReadVint(d, pos) <==> ReadVint(d, pos).value.len <= |w|
    ensures ReadVint(w, 0).Some? ==> ReadVint(w, 0) == ReadVint(d, pos)
  {
    hide Groups;
    if ReadVint(w, 0).Some? {
      VintInWindow(w, d, pos);
    } else if ReadVint(d, pos).value.len <= |w| {
      var len := ReadVint(d, pos).value.len;
      VintEnds(d, pos);
      assert w[len - 1] == d[pos..pos + |w|][len - 1];
      WindowReads(w, d, pos);
    }
  }

  /** What a readable header says about the bytes after its CRC. */
  lemma HeaderOpens(d: Bytes, pos: nat)
    requires ReadBlock(d, pos).Ok?
    ensures ReadVint(d, pos + 4).Some?
    ensures var size := ReadVint(d, pos + 4).value; var typ := ReadVint(ReadBlock(d, pos).block.body, 0);
      && 0 < size.value <= MAX_BODY
      && typ.Some? && typ.value.value == ReadBlock(d, pos).block.fields.typ
      && ReadVint(d, pos + 4 + size.len) == typ
  {
    hide Groups, CrcOf, ReadLe32;
    var size := ReadVint(d, pos + 4).value;
    var body := ReadBlock(d, pos).block.body;
    VintInWindow(body, d, pos + 4 + size.len);
  }

  /** Looking at `visible` succeeds exactly when both integers lie in it. */
  lemma PeekExact(d: Bytes, pos: nat, visible: Bytes)
    requires ReadBlock(d, pos).Ok? && HasAt(d, pos + 4, visible) && Opens(ReadBlock(d, pos).block.fields.typ)
    ensures PeekPasses(visible) <==>
      ReadVint(d, pos + 4).value.len + ReadVint(ReadBlock(d, pos).block.body, 0).value.len <= |visible|
  {
    hide ReadVint, ReadBlock;
    HeaderOpens(d, pos);
    var size := ReadVint(d, pos + 4).value;
    VintFits(visible, d, pos + 4);
    if size.len <= |visible| {
      var rest := visible[size.len..];
      assert visible == d[pos + 4..pos + 4 + |visible|];
      assert HasAt(d, pos + 4 + size.len, rest);
      VintFits(rest, d, pos + 4 + size.len);
    }
  }

  /** In memory every readable opening header passes the cheap look, so the look rejects nothing on its own. */
  lemma MemAcceptsExactly(d: Bytes, i: nat)
    ensures MemAccepts(d, i) <==> Follows(d, i)
  {
    hide ReadVint, ReadBlock, PeekPasses;
    if Follows(d, i) {
      HeaderOpens(d, i + 8);
      PeekExact(d, i + 8, d[i + 12..]);
    }
  }

  /** The chunked scan accepts the same candidates except those whose two integers overrun the peek. */
  lemma StreamAcceptsExactly(d: Bytes, i: nat)
    ensures StreamAccepts(d, i) <==> Follows(d, i) && PeekFits(d, i)
  {
    hide ReadVint, ReadBlock, PeekPasses;
    if Follows(d, i) {
      HeaderOpens(d, i + 8);
      var end := if i + 24 <= |d| then i + 24 else |d|;
      PeekExact(d, i + 8, d[i + 12..end]);
    }
  }

  // ----- The searches

  /** The first accepted candidate among the 8-byte windows of d[from..limit]. */
  function FirstAccepted(d: Bytes, from: nat, limit: nat, streamed: bool): Option<nat>
    decreases limit - from
  {
    if from + 8 > limit then None
    else if Accepts(d, from, streamed) then Some(from)
    else FirstAccepted(d, from + 1, limit, streamed)
  }

  lemma {:induction false} FirstAcceptedFacts(d: Bytes, from: nat, limit: nat, streamed: bool, j: nat)
    ensures var r := FirstAccepted(d, from, limit, streamed);
      && (r.Some? ==> from <= r.value && r.value + 8 <= limit && Accepts(d, r.value, streamed))
      && (from <= j && j + 8 <= limit && Accepts(d, j, streamed) ==> r.Some? && r.value <= j)
    decreases limit - from
  {
    hide Accepts;
    if from + 8 <= limit && !Accepts(d, from, streamed) { FirstAcceptedFacts(d, from + 1, limit, streamed, j); }
  }

  function ScanLimit(d: Bytes): nat { if |d| < SFX_SCAN then |d| else SFX_SCAN }

  /** A signature at the very start needs no header; one further in does. */
  function Search(d: Bytes, streamed: bool): (r: Option<nat>)
    ensures r.Some? ==> r.value + 8 <= |d| && HasAt(d, r.value, SIGNATURE)
  {
    if HasAt(d, 0, SIGNATURE) then Some(0)
    else
      FirstAcceptedFacts(d, 0, ScanLimit(d), streamed, 0);
      FirstAccepted(d, 0, ScanLimit(d), streamed)
  }

  /** The eight signature bytes stand at i, and a whole frame with a right checksum and a main (1) or encryption (4)
      header in it follows. */
  ghost predicate Opening(d: Bytes, i: nat) {
    && i + 8 <= |d| && d[i..i + 8] == [0x52, 0x61, 0x72, 0x21, 0x1A, 0x07, 0x01, 0x00]
    && OpensAt(d, i + 8)
  }

  ghost predicate OpensAt(d: Bytes, pos: nat) { exists body, end :: OpeningFrame(d, pos, body, end) }

  ghost predicate OpeningFrame(d: Bytes, pos: nat, body: Bytes, end: nat) {
    FrameAt(d, pos, body, end) && ParseFields(body).Some? && ParseFields(body).value.typ in {1, 4}
  }

  lemma AcceptsOpenings(d: Bytes, i: nat)
    ensures Accepts(d, i, false) <==> Opening(d, i)
  {
    hide ReadBlock, FrameAt, MemAccepts, ParseFields;
    MemAcceptsExactly(d, i);
    if Follows(d, i) {
      var b := ReadBlock(d, i + 8).block;
      ReadExactly(d, i + 8, b.body, b.end);
      assert OpeningFrame(d, i + 8, b.body, b.end);
    }
    if Opening(d, i) {
      var body, end :| OpeningFrame(d, i + 8, body, end);
      ReadExactly(d, i + 8, body, end);
    }
  }

  /** The in-memory search: 0 for a signature at the start, whatever follows; otherwise the first opening whose
      signature ends within the first 4 MiB. */
  lemma SearchExactly(d: Bytes, i: nat)
    ensures Search(d, false) == Some(i) <==>
      if |d| >= 8 && d[..8] == [0x52, 0x61, 0x72, 0x21, 0x1A, 0x07, 0x01, 0x00] then i == 0
      else i + 8 <= 4194304 && Opening(d, i) && forall j: nat | j < i :: !Opening(d, j)
  {
    hide Accepts, Opening, FirstAccepted;
    if !HasAt(d, 0, SIGNATURE) {
      var limit, r := ScanLimit(d), Search(d, false);
      FirstAcceptedFacts(d, 0, limit, false, i);
      forall j: nat ensures Accepts(d, j, false) <==> Opening(d, j) { AcceptsOpenings(d, j); }
      if Opening(d, i) { OpeningInside(d, i); }
      if r.Some? {
        forall j: nat | j < r.value ensures !Opening(d, j) { FirstAcceptedFacts(d, 0, limit, false, j); }
      }
    }
  }

  lemma OpeningInside(d: Bytes, i: nat)
    requires Opening(d, i)
    ensures i + 8 <= |d|
  {
  }

  /** find_rar5_signature. */
  method FindSignature(d: Bytes) returns (r: Option<nat>)
    ensures r == Search(d, false)
  {
    hide MemAccepts;
    if |d| < 8 { return None; }
    if d[..8] == SIGNATURE {
      assert HasAt(d, 0, SIGNATURE);
      return Some(0);
    }
    var limit: int := ScanLimit(d);
    var i := 1;
    while i + 8 <= limit
      invariant 1 <= i && FirstAccepted(d, i, limit, false) == Search(d, false)
      decreases limit - i
    {
      if HasAt(d, i, SIGNATURE) && MemAccepts(d, i) { return Some(i); }
      i := i + 1;
    }
    r := None;
  }

  // ----- The chunked scan

  datatype Scan = Found(offset: nat) | Missing | Cancelled

  /** What the scan does from chunk start `pos` on: its verdict, the positions it reports, and the number of polls
      made. */
  function ChunkScan(d: Bytes, pos: nat, cancel: nat -> bool, polls: nat): (r: (Scan, seq<nat>, nat))
    decreases ScanLimit(d) - pos
  {
    var limit := ScanLimit(d);
    if pos >= limit then (Missing, [], polls)
    else if cancel(polls) then (Cancelled, [], polls + 1)
    else
      var got := if CHUNK <= limit - pos then CHUNK else limit - pos;
      if got < 8 then (Missing, [pos], polls + 1)
      else
        match FirstAccepted(d, pos, pos + got, true)
        case Some(i) => (Found(i), [pos], polls + 1)
        case None =>
          var rest := ChunkScan(d, pos + (if got > 8 then got - 7 else 1), cancel, polls + 1);
          (rest.0, [pos] + rest.1, rest.2)
  }

  /** A full chunk of 64 KiB in which nothing is found is reported once, and the next overlaps it by seven bytes. */
  lemma ChunkStep(d: Bytes, pos: nat, cancel: nat -> bool, polls: nat)
    requires pos + 65536 <= ScanLimit(d) && !cancel(polls) && FirstAccepted(d, pos, pos + 65536, true) == None
    ensures var rest := ChunkScan(d, pos + 65529, cancel, polls + 1);
      ChunkScan(d, pos, cancel, polls) == (rest.0, [pos] + rest.1, rest.2)
  {
    hide FirstAccepted;
  }

  lemma {:induction false} FirstAcceptedSplit(d: Bytes, from: nat, mid: nat, limit: nat, streamed: bool)
    requires from <= mid && mid + 7 <= limit
    ensures FirstAccepted(d, from, mid + 7, streamed).Some? ==>
        FirstAccepted(d, from, limit, streamed) == FirstAccepted(d, from, mid + 7, streamed)
    ensures FirstAccepted(d, from, mid + 7, streamed).None? ==>
        FirstAccepted(d, from, limit, streamed) == FirstAccepted(d, mid, limit, streamed)
    decreases mid - from
  {
    hide Accepts;
    if from < mid && !Accepts(d, from, streamed) { FirstAcceptedSplit(d, from + 1, mid, limit, streamed); }
  }

  /** Stepping by got - 7 misses no window: without cancellation the scan finds the first accepted candidate. */
  lemma {:induction false} ChunkScanFindsFirst(d: Bytes, pos: nat, cancel: nat -> bool, polls: nat)
    requires forall k :: !cancel(k)
    ensures ChunkScan(d, pos, cancel, polls).0 ==
        match FirstAccepted(d, pos, ScanLimit(d), true) case Some(i) => Found(i) case None => Missing
    decreases ScanLimit(d) - pos
  {
    hide Accepts;
    var limit := ScanLimit(d);
    var got := if pos + CHUNK <= limit then CHUNK else limit - pos;
    if pos < limit && got >= 8 {
      FirstAcceptedSplit(d, pos, pos + got - 7, limit, true);
      ChunkScanFindsFirst(d, pos + got - 7, cancel, polls + 1);
    }
  }

  /** The chunk loop of list_file_stream. */
  method ScanStream(src: FileStream, cancel: nat -> bool) returns (r: Scan, events: seq<nat>, polls: nat)
    modifies src
    ensures (r, events, polls) == ChunkScan(src.data, 0, cancel, 0)
  {
    hide Accepts, FirstAccepted;
    var d := src.data;
    var limit := ScanLimit(d);
    var pos := 0;
    events, polls := [], 0;
    assert [] + ChunkScan(d, 0, cancel, 0).1 == ChunkScan(d, 0, cancel, 0).1;
    while pos < limit
      invariant ChunkScan(d, 0, cancel, 0) ==
        (var rest := ChunkScan(d, pos, cancel, polls); (rest.0, events + rest.1, rest.2))
      decreases limit - pos
    {
      polls := polls + 1;
      if cancel(polls - 1) {
        assert events + [] == events;
        return Cancelled, events, polls;
      }
      ghost var before := events;
      events := events + [pos];
      src.Seek(pos);
      var chunk := src.Read(if CHUNK <= limit - pos then CHUNK else limit - pos);
      if |chunk| < 8 { return Missing, events, polls; }
      var found := ScanChunk(src, pos, chunk);
      if found.Some? { return Found(found.value), events, polls; }
      pos := pos + if |chunk| > 8 then |chunk| - 7 else 1;
      assert forall t: seq<nat> :: before + ([events[|before|]] + t) == events + t;
    }
    r := Missing;
    assert events + [] == events;
  }

  /** The candidates of one chunk, each followed up through the stream. */
  method ScanChunk(src: FileStream, pos: nat, chunk: Bytes) returns (r: Option<nat>)
    requires HasAt(src.data, pos, chunk)
    modifies src
    ensures r == FirstAccepted(src.data, pos, pos + |chunk|, true)
  {
    hide HasAt, StreamAccepts;
    var d := src.data;
    var i := 0;
    while i + 8 <= |chunk|
      invariant FirstAccepted(d, pos + i, pos + |chunk|, true) == FirstAccepted(d, pos, pos + |chunk|, true)
      decreases |chunk| - i
    {
      SameInChunk(d, pos, chunk, i);
      if chunk[i..i + 8] == SIGNATURE {
        var accepted := TryCandidate(src, pos + i);
        if accepted { return Some(pos + i); }
      }
      i := i + 1;
    }
    r := None;
  }

  lemma SameInChunk(d: Bytes, pos: nat, chunk: Bytes, i: nat)
    requires HasAt(d, pos, chunk) && i + 8 <= |chunk|
    ensures HasAt(d, pos + i, SIGNATURE) <==> chunk[i..i + 8] == SIGNATURE
  {
    var u, v := chunk[i..i + 8], d[pos + i..pos + i + 8];
    forall k | 0 <= k < 8 ensures u[k] == v[k] {
      assert chunk[i + k] == d[pos..pos + |chunk|][i + k];
    }
    assert u == v;
  }

  /** Peek at 16 bytes after the signature, then read the header for real. */
  method TryCandidate(src: FileStream, i: nat) returns (ok: bool)
    modifies src
    ensures ok <==> StreamAccepts(src.data, i)
  {
    hide PeekPasses, ReadBlock;
    var d := src.data;
    src.Seek(i + 8);
    var peek := src.Read(16);
    if |peek| < 6 { return false; }
    assert peek == d[i + 8..i + 8 + |peek|];
    assert peek[4..] == d[i + 12..i + 8 + |peek|];
    if !PeekPasses(peek[4..]) { return false; }
    src.Seek(i + 8);
    var r := ReadBlockStream(src);
    ok := r.Ok? && Opens(r.block.fields.typ);
  }

  // ----- The two searches compared

  /** The chunked scan returns what the one-pass search returns exactly when the header found in memory has its size
      and type integers inside the peek. */
  lemma SearchesAgree(d: Bytes)
    ensures Search(d, true) == Search(d, false) <==>
      (var r := Search(d, false); r.Some? && r.value != 0 ==> Follows(d, r.value) && PeekFits(d, r.value))
  {
    hide Follows, PeekFits, StreamAccepts, MemAccepts, HasAt, FirstAccepted;
    if !HasAt(d, 0, SIGNATURE) {
      var m, s, limit := Search(d, false), Search(d, true), ScanLimit(d);
      FirstAcceptedFacts(d, 0, limit, false, if s.Some? then s.value else 0);
      FirstAcceptedFacts(d, 0, limit, true, if m.Some? then m.value else 0);
      if s.Some? { StreamSubset(d, s.value); }
      if m.Some? {
        StreamAcceptsExactly(d, m.value);
        MemAcceptsExactly(d, m.value);
      }
    }
  }

  lemma StreamSubset(d: Bytes, i: nat)
    requires Accepts(d, i, true)
    ensures Accepts(d, i, false)
  {
    hide StreamAccepts, MemAccepts, HasAt, Follows, PeekFits;
    StreamAcceptsExactly(d, i);
    MemAcceptsExactly(d, i);
  }

  /** The scan never reports an offset before the one found in memory. */
  lemma ScanNeverEarlier(d: Bytes)
    requires Search(d, true).Some?
    ensures Search(d, false).Some? && Search(d, false).value <= Search(d, true).value
  {
    hide StreamAccepts, MemAccepts, HasAt, FirstAccepted;
    if !HasAt(d, 0, SIGNATURE) {
      var i := Search(d, true).value;
      FirstAcceptedFacts(d, 0, ScanLimit(d), true, i);
      FirstAcceptedFacts(d, 0, ScanLimit(d), false, i);
      StreamSubset(d, i);
    }
  }
}
