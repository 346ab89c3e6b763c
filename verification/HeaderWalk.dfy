/** The shared header walk: walk_headers, MemSource and StreamSource of src/archive/buffer_archive.cpp, without a
    password. */
module HeaderWalk {
  import opened Options
  import opened ByteStrings
  import opened Vint
  import opened BlockFrame
  import opened Headers
  import opened DosTime

  datatype Entry = Entry(
    path: Bytes, isDir: bool, size: nat, packedSize: nat, packMethod: nat, winSize: nat, extraDist: bool,
        isEncrypted: bool,
    headerOffset: nat, dataOffset: nat, crc: Option<nat>, blake2sp: Option<Bytes>, mtime: nat)

  datatype Status = Done | Aborted | Truncated | CryptHeader | EncryptedFile | SolidHeader

  function MakeEntry(fb: FileBlock, headStart: nat, headEnd: nat): Entry {
    Entry(fb.name, HasBit(fb.fileFlags, FHFL_DIRECTORY), fb.unpSize, if fb.packSize.Some? then fb.packSize.value else 0,
          fb.packMethod, fb.winSize, fb.extraDist, fb.isEncrypted, headStart, headEnd,
          if fb.hasCrc then Some(fb.crc) else None, fb.blake2sp, DosToUnix(fb.utime))
  }

  /** What the block at one position leads to: an end of the walk, or the next position. */
  datatype Step =
    | Stop(status: Status, entry: Option<Entry>)
    | Next(pos: nat, entry: Option<Entry>, arcFlags: Option<nat>, ended: bool)

  function FileStep(d: Bytes, pos: nat, b: Block, emitEncrypted: bool): (s: Step)
    requires pos < b.end <= |d|
    ensures if s.Next? then pos < s.pos <= |d| else s.status != Done
  {
    hide *;
    var fits := b.fields.dataSize <= |d| - b.end;
    match ParseFile(b.body)
    case None => Stop(Truncated, None)
    case Some(fb) =>
      if fb.isSolid then Stop(if fits then SolidHeader else Truncated, None)
      else if fb.isEncrypted && !emitEncrypted then Stop(if fits then EncryptedFile else Truncated, None)
      else
        var e := Some(MakeEntry(fb, pos, b.end));
        if fits then Next(b.end + b.fields.dataSize, e, None, false) else Stop(Truncated, e)
  }

  /** The classification of one block. */
  function StepOf(d: Bytes, pos: nat, b: Block, emitEncrypted: bool): (s: Step)
    requires pos < b.end <= |d|
    ensures if s.Next? then pos < s.pos <= |d| else s.status != Done
  {
    hide *;
    if b.fields.typ == HEAD_MAIN then
      match ParseMain(b.body)
      case None => Stop(Truncated, None)
      case Some(a) => Next(b.end, None, Some(a), false)
    else if b.fields.typ == HEAD_FILE || b.fields.typ == HEAD_SERVICE then FileStep(d, pos, b, emitEncrypted)
    else if b.fields.typ == HEAD_ENDARC then
      match ParseEnd(b.body)
      case None => Stop(Truncated, None)
      case Some(more) => Next(b.end, None, None, !more)
    else if b.fields.typ == HEAD_CRYPT then Stop(CryptHeader, None)
    else if b.fields.dataSize <= |d| - b.end then Next(b.end + b.fields.dataSize, None, None, false)
    else Stop(Truncated, None)
  }

  function StepAt(d: Bytes, pos: nat, emitEncrypted: bool): (s: Step)
    ensures if s.Next? then pos < s.pos <= |d| else s.status != Done
  {
    hide *;
    match ReadBlock(d, pos)
    case Ok(b) => StepOf(d, pos, b, emitEncrypted)
    case _ => Stop(Truncated, None)
  }

  /** What the walk does at each type of header: 1 sets the archive flags, 2 and 3 give an entry and skip its data, 4
      stops, 5 ends the walk unless another volume follows, and any other type is skipped with its data. */
  lemma StepKinds(d: Bytes, pos: nat, emitEncrypted: bool)
    requires ReadBlock(d, pos).Ok?
    ensures var b, s := ReadBlock(d, pos).block, StepAt(d, pos, emitEncrypted); var typ := b.fields.typ;
      && (s.Next? && s.arcFlags.Some? ==> typ == 1) && (s.entry.Some? ==> typ == 2 || typ == 3)
      && (s.Next? && s.ended ==> typ == 5) && (s.Stop? && s.status == CryptHeader <==> typ == 4)
      && (s.Next? ==> s.pos == b.end + (if typ == 1 || typ == 5 then 0 else b.fields.dataSize))
      && (s.Next? && typ == 1 ==> s.arcFlags == ParseMain(b.body))
      && (s.Next? && (typ == 2 || typ == 3) ==>
          ParseFile(b.body).Some? && s.entry == Some(MakeEntry(ParseFile(b.body).value, pos, b.end)))
      && (s.Next? && typ == 5 ==> ParseEnd(b.body) == Some(!s.ended))
      && (typ > 5 || typ == 0 ==> (s.Next? <==> b.end + b.fields.dataSize <= |d|))
      && (s.Stop? && s.status == SolidHeader ==> (typ == 2 || typ == 3) && ParseFile(b.body).value.isSolid)
      && (s.Stop? && s.status == EncryptedFile ==>
          (typ == 2 || typ == 3) && !emitEncrypted && ParseFile(b.body).value.isEncrypted)
      && (s.entry.Some? ==> !ParseFile(b.body).value.isSolid && (emitEncrypted || !ParseFile(b.body).value.isEncrypted))
  {
    hide ReadBlock, ParseMain, ParseFile, ParseEnd, MakeEntry;
  }

  function Listed(e: Option<Entry>): seq<Entry> { if e.Some? then [e.value] else [] }

  /** arcFlags are those of the last main header seen, 0 before any. */
  datatype Outcome = Outcome(status: Status, entries: seq<Entry>, arcFlags: nat, events: seq<nat>)

  function Prepend(entries: seq<Entry>, events: seq<nat>, r: Outcome): Outcome {
    r.(entries := entries + r.entries, events := events + r.events)
  }

  function Latest(arcFlags: nat, seen: Option<nat>): nat { if seen.Some? then seen.value else arcFlags }

  /** The whole walk from `pos`; cancel(k) is the answer to the k-th poll, `events` the positions reported. */
  function Walk(d: Bytes, pos: nat, emitEncrypted: bool, cancel: nat -> bool, polls: nat, arcFlags: nat): Outcome
    decreases |d| - pos
  {
    if pos >= |d| then Outcome(Done, [], arcFlags, [])
    else if cancel(polls) then Outcome(Aborted, [], arcFlags, [])
    else
      match StepAt(d, pos, emitEncrypted)
      case Stop(status, e) => Outcome(status, Listed(e), arcFlags, [pos])
      case Next(next, e, seen, ended) =>
        var flags := Latest(arcFlags, seen);
        if ended then Outcome(Done, Listed(e), flags, [pos])
        else Prepend(Listed(e), [pos], Walk(d, next, emitEncrypted, cancel, polls + 1, flags))
  }

  // ----- The loop over either source

  /** read_block of the two sources; the cursor moves only past a header that was read. */
  method ReadNext(src: FileStream, streamed: bool) returns (r: ReadResult)
    modifies src
    ensures r.Ok? ==> r == ReadBlock(src.data, old(src.pos)) && src.pos == r.block.end
    ensures !r.Ok? ==> !ReadBlock(src.data, old(src.pos)).Ok?
  {
    hide ReadBlock;
    if streamed {
      PastEnd(src.data, src.pos);
      r := ReadBlockStream(src);
    } else {
      r := ReadBlock(src.data, src.pos);
      if r.Ok? { src.Seek(r.block.end); }
    }
  }

  lemma PastEnd(d: Bytes, pos: nat)
    ensures pos >= |d| ==> ReadBlock(d, pos) == Error
  {
  }

  lemma PrependTwice(e1: seq<Entry>, v1: seq<nat>, e2: seq<Entry>, v2: seq<nat>, r: Outcome)
    ensures Prepend(e1, v1, Prepend(e2, v2, r)) == Prepend(e1 + e2, v1 + v2, r)
  {
    assert e1 + (e2 + r.entries) == (e1 + e2) + r.entries;
    assert v1 + (v2 + r.events) == (v1 + v2) + r.events;
  }

  lemma PrependNothing(r: Outcome)
    ensures Prepend([], [], r) == r
  {
  }

  lemma PrependLast(e1: seq<Entry>, v1: seq<nat>, status: Status, e2: seq<Entry>, arcFlags: nat, v2: seq<nat>)
    ensures Prepend(e1, v1, Outcome(status, e2, arcFlags, v2)) == Outcome(status, e1 + e2, arcFlags, v1 + v2)
  {
  }

  /** How a step changes the state of the walk. */
  lemma WalkStep(d: Bytes, pos: nat, emitEncrypted: bool, cancel: nat -> bool, polls: nat, arcFlags: nat,
      entries: seq<Entry>, events: seq<nat>)
    requires pos < |d| && !cancel(polls)
    ensures var all := Prepend(entries, events, Walk(d, pos, emitEncrypted, cancel, polls, arcFlags));
      match StepAt(d, pos, emitEncrypted)
      case Stop(status, e) => all == Outcome(status, entries + Listed(e), arcFlags, events + [pos])
      case Next(next, e, seen, ended) =>
        && (ended ==> all == Outcome(Done, entries + Listed(e), Latest(arcFlags, seen), events + [pos]))
        && (!ended ==> all == Prepend(entries + Listed(e), events + [pos],
                                      Walk(d, next, emitEncrypted, cancel, polls + 1, Latest(arcFlags, seen))))
  {
    hide StepAt;
    match StepAt(d, pos, emitEncrypted)
    case Stop(status, e) =>
      PrependLast(entries, events, status, Listed(e), arcFlags, [pos]);
    case Next(next, e, seen, ended) =>
      if ended {
        PrependLast(entries, events, Done, Listed(e), Latest(arcFlags, seen), [pos]);
      } else {
        PrependTwice(entries, events, Listed(e), [pos],
            Walk(d, next, emitEncrypted, cancel, polls + 1, Latest(arcFlags, seen)));
      }
  }

  lemma WalkPoll(d: Bytes, pos: nat, emitEncrypted: bool, cancel: nat -> bool, polls: nat, arcFlags: nat,
      entries: seq<Entry>, events: seq<nat>)
    ensures var all := Prepend(entries, events, Walk(d, pos, emitEncrypted, cancel, polls, arcFlags));
      && (pos >= |d| ==> all == Outcome(Done, entries, arcFlags, events))
      && (pos < |d| && cancel(polls) ==> all == Outcome(Aborted, entries, arcFlags, events))
  {
    hide StepAt;
    PrependLast(entries, events, if pos >= |d| then Done else Aborted, [], arcFlags, []);
    assert entries + [] == entries && events + [] == events;
  }

  /** skip of the two sources: past the data area, unless it overruns the archive. */
  method Skip(src: FileStream, dataSize: nat, headEnd: nat, streamed: bool) returns (ok: bool)
    requires src.pos == headEnd
    modifies src
    ensures ok <==> headEnd <= |src.data| && dataSize <= |src.data| - headEnd
    ensures src.pos == if ok then headEnd + dataSize else headEnd
  {
    if headEnd > |src.data| || dataSize > |src.data| - headEnd { return false; }
    if !streamed || dataSize != 0 { src.Seek(headEnd + dataSize); }
    ok := true;
  }

  /** The branches of the walk on one block; the cursor stands after its header. */
  method TakeStep(src: FileStream, streamed: bool, emitEncrypted: bool, headStart: nat, b: Block) returns (step: Step)
    requires headStart < src.pos == b.end <= |src.data|
    modifies src
    ensures step == StepOf(src.data, headStart, b, emitEncrypted)
    ensures step.Next? ==> src.pos == step.pos
  {
    hide ParseMain, ParseFile, ParseEnd, MakeEntry;
    var typ, headEnd := b.fields.typ, src.pos;
    if typ == HEAD_MAIN {
      var main := ParseMain(b.body);
      return if main.None? then Stop(Truncated, None) else Next(headEnd, None, main, false);
    }
    if typ == HEAD_FILE || typ == HEAD_SERVICE {
      var fb := ParseFile(b.body);
      if fb.None? { return Stop(Truncated, None); }
      var fits := Skip(src, b.fields.dataSize, headEnd, streamed);
      if fb.value.isSolid { return Stop(if fits then SolidHeader else Truncated, None); }
      if fb.value.isEncrypted && !emitEncrypted { return Stop(if fits then EncryptedFile else Truncated, None); }
      var e := Some(MakeEntry(fb.value, headStart, headEnd));
      return if fits then Next(src.pos, e, None, false) else Stop(Truncated, e);
    }
    if typ == HEAD_ENDARC {
      var more := ParseEnd(b.body);
      return if more.None? then Stop(Truncated, None) else Next(headEnd, None, None, !more.value);
    }
    if typ == HEAD_CRYPT { return Stop(CryptHeader, None); }
    var fits := Skip(src, b.fields.dataSize, headEnd, streamed);
    step := if fits then Next(src.pos, None, None, false) else Stop(Truncated, None);
  }

  /** walk_headers; the memory source and the stream source take the same steps. */
  method WalkHeaders(src: FileStream, streamed: bool, emitEncrypted: bool, cancel: nat -> bool, firstPoll: nat)
    returns (status: Status, entries: seq<Entry>, arcFlags: nat, events: seq<nat>)
    modifies src
    ensures Outcome(status, entries, arcFlags, events) ==
        Walk(src.data, old(src.pos), emitEncrypted, cancel, firstPoll, 0)
  {
    hide ReadBlock, Walk, Prepend, StepOf;
    var d, polls, sawEnd := src.data, firstPoll, false;
    entries, events, arcFlags := [], [], 0;
    ghost var all := Walk(d, src.pos, emitEncrypted, cancel, firstPoll, 0);
    PrependNothing(all);
    while src.pos < |d| && !sawEnd
      invariant !sawEnd ==> all == Prepend(entries, events, Walk(d, src.pos, emitEncrypted, cancel, polls, arcFlags))
      invariant sawEnd ==> all == Outcome(Done, entries, arcFlags, events)
      decreases |d| - src.pos
    {
      WalkPoll(d, src.pos, emitEncrypted, cancel, polls, arcFlags, entries, events);
      if cancel(polls) { return Aborted, entries, arcFlags, events; }
      WalkStep(d, src.pos, emitEncrypted, cancel, polls, arcFlags, entries, events);
      polls := polls + 1;
      events := events + [src.pos];
      var headStart := src.pos;
      var r := ReadNext(src, streamed);
      if !r.Ok? { return Truncated, entries + Listed(None), arcFlags, events; }
      var step := TakeStep(src, streamed, emitEncrypted, headStart, r.block);
      entries := entries + Listed(step.entry);
      if step.Stop? { return step.status, entries, arcFlags, events; }
      arcFlags, sawEnd := Latest(arcFlags, step.arcFlags), step.ended;
    }
    if !sawEnd { WalkPoll(d, src.pos, emitEncrypted, cancel, polls, arcFlags, entries, events); }
    status := Done;
  }

  // ----- What every walk keeps

  /** A file header's packed size is the data size that the frame announced. */
  lemma PackedSizeIsDataSize(body: Bytes)
    requires ParseFields(body).Some? && ParseFile(body).Some?
    ensures (var p := ParseFile(body).value.packSize; if p.Some? then p.value else 0) ==
        ParseFields(body).value.dataSize
  {
    hide ReadVint, ReadSizes, ReadCodes, ExtraRecords, WindowSize, Records, SomeRejects, SomeEncrypts, LastDigest,
         AllInside;
    var f := ParseFields(body).value;
    var s := ReadSizes(body, f.next).value;
    var c := ReadCodes(body, s.next, s.flags).value;
    ExtraMeaning(body, |body| - f.extraSize, MakeFileBlock(f, s, c, body[c.next..c.next + c.nameLen]));
    NoDataNoSize(body);
  }

  lemma NoDataNoSize(body: Bytes)
    requires ParseFields(body).Some?
    ensures !HasBit(ParseFields(body).value.flags, HFL_DATA) ==> ParseFields(body).value.dataSize == 0
  {
    hide ReadVint;
  }

  function End(e: Entry): nat { e.dataOffset + e.packedSize }

  /** Headers and data areas lie in [lo, hi), one entry after the other. */
  predicate Laid(entries: seq<Entry>, lo: nat, hi: nat) {
    && (forall i :: 0 <= i < |entries| ==>
        lo <= entries[i].headerOffset < entries[i].dataOffset <= End(entries[i]) <= hi)
    && (forall i, j :: 0 <= i < j < |entries| ==> End(entries[i]) <= entries[j].headerOffset)
  }

  lemma StepLaid(d: Bytes, pos: nat, emitEncrypted: bool)
    requires StepAt(d, pos, emitEncrypted).Next?
    ensures Laid(Listed(StepAt(d, pos, emitEncrypted).entry), pos, StepAt(d, pos, emitEncrypted).pos)
  {
    hide ParseFile, ParseMain, ParseEnd, ParseFields, ReadBlock;
    var b := ReadBlock(d, pos).block;
    if ParseFile(b.body).Some? { PackedSizeIsDataSize(b.body); }
  }

  lemma LaidJoin(a: seq<Entry>, b: seq<Entry>, lo: nat, mid: nat, hi: nat)
    requires Laid(a, lo, mid) && Laid(b, mid, hi) && lo <= mid <= hi
    ensures Laid(a + b, lo, hi)
  {
  }

  /** On success the recorded extents are increasing, pairwise disjoint and inside the source. */
  lemma {:induction false} WalkSafe(d: Bytes, pos: nat, emitEncrypted: bool, cancel: nat -> bool, polls: nat,
      arcFlags: nat)
    requires pos <= |d| && Walk(d, pos, emitEncrypted, cancel, polls, arcFlags).status == Done
    ensures Laid(Walk(d, pos, emitEncrypted, cancel, polls, arcFlags).entries, pos, |d|)
    decreases |d| - pos
  {
    hide StepAt, Laid;
    LaidNone(pos, |d|);
    if pos < |d| {
      var s := StepAt(d, pos, emitEncrypted);
      if s.Next? {
        StepLaid(d, pos, emitEncrypted);
        if s.ended {
          LaidNone(s.pos, |d|);
          LaidJoin(Listed(s.entry), [], pos, s.pos, |d|);
          assert Listed(s.entry) + [] == Listed(s.entry);
        } else {
          WalkSafe(d, s.pos, emitEncrypted, cancel, polls + 1, Latest(arcFlags, s.arcFlags));
          LaidJoin(Listed(s.entry),
              Walk(d, s.pos, emitEncrypted, cancel, polls + 1, Latest(arcFlags, s.arcFlags)).entries, pos, s.pos, |d|);
        }
      }
    }
  }

  lemma LaidNone(lo: nat, hi: nat)
    ensures Laid([], lo, hi)
  {
  }

  /** Reported positions rise strictly and stay inside [lo, hi). */
  predicate Rising(events: seq<nat>, lo: nat, hi: nat) {
    && (forall i :: 0 <= i < |events| ==> lo <= events[i] < hi)
    && (forall i, j :: 0 <= i < j < |events| ==> events[i] < events[j])
  }

  lemma {:induction false} WalkEvents(d: Bytes, pos: nat, emitEncrypted: bool, cancel: nat -> bool, polls: nat,
      arcFlags: nat)
    ensures Rising(Walk(d, pos, emitEncrypted, cancel, polls, arcFlags).events, pos, |d|)
    decreases |d| - pos
  {
    hide StepAt;
    if pos < |d| {
      var s := StepAt(d, pos, emitEncrypted);
      if s.Next? { WalkEvents(d, s.pos, emitEncrypted, cancel, polls + 1, Latest(arcFlags, s.arcFlags)); }
    }
  }
}
