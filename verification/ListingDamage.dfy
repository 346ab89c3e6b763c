/** Damaged archives: what the header and member checksums of src/archive/buffer_archive.cpp are there for. */
module ListingDamage {
  import opened Options
  import opened ByteStrings
  import opened BlockFrame
  import opened HeaderWalk
  import Headers
  import opened Vint
  import opened Signature
  import opened Listing

  // ----- Steps read their own header and the archive's size

  lemma StepUnchanged(d: Bytes, d': Bytes, pos: nat, emitEncrypted: bool)
    requires |d| == |d'| && ReadBlock(d, pos).Ok?
    requires var end := ReadBlock(d, pos).block.end; d[pos..end] == d'[pos..end]
    ensures StepAt(d', pos, emitEncrypted) == StepAt(d, pos, emitEncrypted)
  {
    hide ReadBlock;
    FrameUnchanged(d, d', pos);
    SameStep(d, d', pos, ReadBlock(d, pos).block, emitEncrypted);
  }

  lemma SameStep(d: Bytes, d': Bytes, pos: nat, b: Block, emitEncrypted: bool)
    requires |d| == |d'| && pos < b.end <= |d|
    ensures StepOf(d', pos, b, emitEncrypted) == StepOf(d, pos, b, emitEncrypted)
  {
  }

  /** The next position lies behind the header that was read. */
  lemma StepPasses(d: Bytes, pos: nat, emitEncrypted: bool)
    requires StepAt(d, pos, emitEncrypted).Next?
    ensures ReadBlock(d, pos).Ok? && ReadBlock(d, pos).block.end <= StepAt(d, pos, emitEncrypted).pos
  {
    hide ReadBlock;
  }

  // ----- Damage to a header

  /** A header that the walk reads, damaged, ends the walk as truncated. */
  lemma {:induction false} DamagedWalk(d: Bytes, d': Bytes, pos: nat, emitEncrypted: bool, cancel: nat -> bool,
      polls: nat, arcFlags: nat, at: nat, lo: nat, hi: nat)
    requires at in Walk(d, pos, emitEncrypted, cancel, polls, arcFlags).events
    requires HeaderDamage(d, d', at, lo, hi)
    ensures Walk(d', pos, emitEncrypted, cancel, polls, arcFlags).status == Truncated
    decreases |d| - pos
  {
    hide StepAt, ReadBlock, HeaderDamage;
    WalkEvents(d, pos, emitEncrypted, cancel, polls, arcFlags);
    DamagePlace(d, d', at, lo, hi);
    if at == pos {
      DamagedHeader(d, d', at, lo, hi);
      UnreadStops(d', pos, emitEncrypted);
    } else {
      var s := StepAt(d, pos, emitEncrypted);
      StepPasses(d, pos, emitEncrypted);
      WalkEvents(d, s.pos, emitEncrypted, cancel, polls + 1, Latest(arcFlags, s.arcFlags));
      var end := ReadBlock(d, pos).block.end;
      Before(d, d', lo, hi, pos, end);
      StepUnchanged(d, d', pos, emitEncrypted);
      DamagedWalk(d, d', s.pos, emitEncrypted, cancel, polls + 1, Latest(arcFlags, s.arcFlags), at, lo, hi);
    }
  }

  lemma UnreadStops(d: Bytes, pos: nat, emitEncrypted: bool)
    requires !ReadBlock(d, pos).Ok?
    ensures StepAt(d, pos, emitEncrypted) == Stop(Truncated, None)
  {
    hide ReadBlock;
  }

  lemma DamagePlace(d: Bytes, d': Bytes, pos: nat, lo: nat, hi: nat)
    requires HeaderDamage(d, d', pos, lo, hi)
    ensures |d| == |d'| && pos <= lo <= hi <= |d| && DiffersIn(d, d', lo, hi)
  {
    hide ReadBlock, DiffersIn, FrameAt;
    ReadIsFrame(d, pos);
    FramePlace(d, pos, ReadBlock(d, pos).block.body, ReadBlock(d, pos).block.end);
    DamageSize(d, d', lo, hi);
  }

  lemma FramePlace(d: Bytes, pos: nat, body: Bytes, end: nat)
    requires FrameAt(d, pos, body, end)
    ensures pos + 4 < end - |body| && end <= |d|
  {
    hide ReadVint, CrcOf;
  }

  lemma Before(d: Bytes, d': Bytes, lo: nat, hi: nat, from: nat, to: nat)
    requires DiffersIn(d, d', lo, hi) && from <= to <= lo
    ensures d[from..to] == d'[from..to]
  {
    UntouchedPart(d, d', lo, hi, from, to);
  }

  /** In an archive that starts with its signature, damage to up to four consecutive bytes of a header that the
      listing reads, or to its checksum, is never listed as sound: both surfaces report a truncated archive. */
  lemma DamagedHeaderNotListed(d: Bytes, d': Bytes, emitEncrypted: bool, cancel: nat -> bool, at: nat, lo: nat,
      hi: nat)
    requires HasAt(d, 0, SIGNATURE) && HeaderDamage(d, d', at, lo, hi)
    ensures at in Walk(d, 8, false, cancel, 0, 0).events ==>
      ListMem(d', cancel).code == ErrTruncated && ListMem(d', cancel).entries == []
    ensures at in Walk(d, 8, emitEncrypted, cancel, 0, 0).events ==>
      ListStream(d', emitEncrypted, cancel).code == ErrTruncated && ListStream(d', emitEncrypted, cancel).entries == []
  {
    hide Walk, ReadBlock, HeaderDamage, FirstAccepted, ChunkScan;
    if at in Walk(d, 8, false, cancel, 0, 0).events || at in Walk(d, 8, emitEncrypted, cancel, 0, 0).events {
      WalkEvents(d, 8, false, cancel, 0, 0);
      WalkEvents(d, 8, emitEncrypted, cancel, 0, 0);
      DamagePlace(d, d', at, lo, hi);
      Before(d, d', lo, hi, 0, 8);
      if at in Walk(d, 8, false, cancel, 0, 0).events { DamagedWalk(d, d', 8, false, cancel, 0, 0, at, lo, hi); }
      if at in Walk(d, 8, emitEncrypted, cancel, 0, 0).events {
        DamagedWalk(d, d', 8, emitEncrypted, cancel, 0, 0, at, lo, hi);
      }
    }
  }

  /** In a walk that ends well every header that it reports was read, and every entry's header is among them. */
  lemma {:induction false} WalkReads(d: Bytes, pos: nat, emitEncrypted: bool, cancel: nat -> bool, polls: nat,
      arcFlags: nat)
    requires Walk(d, pos, emitEncrypted, cancel, polls, arcFlags).status == Done
    ensures var w := Walk(d, pos, emitEncrypted, cancel, polls, arcFlags);
      && (forall at :: at in w.events ==> ReadBlock(d, at).Ok?)
      && (forall e :: e in w.entries ==> e.headerOffset in w.events && HeaderOf(d, e))
    decreases |d| - pos
  {
    hide StepAt, ReadBlock, HeaderOf;
    if pos < |d| {
      var s := StepAt(d, pos, emitEncrypted);
      if s.Next? {
        StepPasses(d, pos, emitEncrypted);
        StepEntry(d, pos, emitEncrypted);
        if !s.ended { WalkReads(d, s.pos, emitEncrypted, cancel, polls + 1, Latest(arcFlags, s.arcFlags)); }
      }
    }
  }

  /** The header of an entry ends where its data starts, and the walk goes on behind the data. */
  predicate HeaderOf(d: Bytes, e: Entry) {
    && ReadBlock(d, e.headerOffset).Ok? && ReadBlock(d, e.headerOffset).block.end == e.dataOffset
    && ReadBlock(d, e.headerOffset).block.fields.dataSize == e.packedSize
  }

  lemma StepEntry(d: Bytes, pos: nat, emitEncrypted: bool)
    requires StepAt(d, pos, emitEncrypted).Next?
    ensures forall e :: e in Listed(StepAt(d, pos, emitEncrypted).entry) ==> e.headerOffset == pos && HeaderOf(d, e)
  {
    hide ReadBlock, Headers.ParseFile, Headers.ParseMain, Headers.ParseEnd, ParseFields;
    StepPasses(d, pos, emitEncrypted);
    var b := ReadBlock(d, pos).block;
    if Headers.ParseFile(b.body).Some? { PackedSizeIsDataSize(b.body); }
  }

  // ----- Damage to a payload

  /** A walk that ends well reads nothing before its start. */
  lemma {:induction false} WalkBehind(d: Bytes, d': Bytes, pos: nat, emitEncrypted: bool, cancel: nat -> bool,
      polls: nat, arcFlags: nat, lo: nat, hi: nat)
    requires DiffersIn(d, d', lo, hi) && hi <= pos
    requires Walk(d, pos, emitEncrypted, cancel, polls, arcFlags).status == Done
    ensures Walk(d', pos, emitEncrypted, cancel, polls, arcFlags) ==
        Walk(d, pos, emitEncrypted, cancel, polls, arcFlags)
    decreases |d| - pos
  {
    hide StepAt, ReadBlock, DiffersIn, Prepend;
    DamageSize(d, d', lo, hi);
    PrependFields();
    if pos < |d| {
      var s := StepAt(d, pos, emitEncrypted);
      if s.Next? {
        StepPasses(d, pos, emitEncrypted);
        UntouchedPart(d, d', lo, hi, pos, ReadBlock(d, pos).block.end);
        StepUnchanged(d, d', pos, emitEncrypted);
        if !s.ended {
          WalkBehind(d, d', s.pos, emitEncrypted, cancel, polls + 1, Latest(arcFlags, s.arcFlags), lo, hi);
        }
      }
    }
  }

  /** The walk skips what lies behind a header as its data. */
  lemma StepSkips(d: Bytes, pos: nat, emitEncrypted: bool)
    requires StepAt(d, pos, emitEncrypted).Next? && StepAt(d, pos, emitEncrypted).entry.Some?
    ensures ReadBlock(d, pos).Ok?
    ensures StepAt(d, pos, emitEncrypted).pos == ReadBlock(d, pos).block.end + ReadBlock(d, pos).block.fields.dataSize
  {
    hide ReadBlock, Headers.ParseFile, Headers.ParseMain, Headers.ParseEnd;
  }

  /** Damage inside an entry's data area does not change the walk. */
  lemma {:induction false} WalkAround(d: Bytes, d': Bytes, pos: nat, emitEncrypted: bool, cancel: nat -> bool,
      polls: nat, arcFlags: nat, e: Entry, lo: nat, hi: nat)
    requires Walk(d, pos, emitEncrypted, cancel, polls, arcFlags).status == Done
    requires e in Walk(d, pos, emitEncrypted, cancel, polls, arcFlags).entries
    requires DiffersIn(d, d', lo, hi) && e.dataOffset <= lo && hi <= End(e)
    ensures Walk(d', pos, emitEncrypted, cancel, polls, arcFlags) ==
        Walk(d, pos, emitEncrypted, cancel, polls, arcFlags)
    decreases |d| - pos
  {
    hide StepAt, ReadBlock, DiffersIn, Prepend, HeaderOf;
    DamageSize(d, d', lo, hi);
    PrependFields();
    var s := StepAt(d, pos, emitEncrypted);
    StepPasses(d, pos, emitEncrypted);
    StepEntry(d, pos, emitEncrypted);
    if e in Listed(s.entry) {
      StepSkips(d, pos, emitEncrypted);
      HeaderPlace(d, e);
      Before(d, d', lo, hi, pos, e.dataOffset);
      StepUnchanged(d, d', pos, emitEncrypted);
      if !s.ended {
        WalkBehind(d, d', s.pos, emitEncrypted, cancel, polls + 1, Latest(arcFlags, s.arcFlags), lo, hi);
      }
    } else {
      var next := Walk(d, s.pos, emitEncrypted, cancel, polls + 1, Latest(arcFlags, s.arcFlags));
      WalkReads(d, s.pos, emitEncrypted, cancel, polls + 1, Latest(arcFlags, s.arcFlags));
      WalkEvents(d, s.pos, emitEncrypted, cancel, polls + 1, Latest(arcFlags, s.arcFlags));
      HeaderPlace(d, e);
      Before(d, d', lo, hi, pos, ReadBlock(d, pos).block.end);
      StepUnchanged(d, d', pos, emitEncrypted);
      WalkAround(d, d', s.pos, emitEncrypted, cancel, polls + 1, Latest(arcFlags, s.arcFlags), e, lo, hi);
    }
  }

  lemma PrependFields()
    ensures forall entries, events, r :: Prepend(entries, events, r).status == r.status
    ensures forall entries, events, r :: Prepend(entries, events, r).entries == entries + r.entries
  {
  }

  lemma HeaderPlace(d: Bytes, e: Entry)
    requires HeaderOf(d, e)
    ensures ReadBlock(d, e.headerOffset).Ok? && ReadBlock(d, e.headerOffset).block.end == e.dataOffset
    ensures e.headerOffset < e.dataOffset <= |d|
    ensures ReadBlock(d, e.headerOffset).block.fields.dataSize == e.packedSize
  {
    hide ReadBlock;
  }

  /** In an archive that starts with its signature, damage inside an entry's payload leaves both listings as they
      were. */
  lemma DamagedPayloadListed(d: Bytes, d': Bytes, cancel: nat -> bool, e: Entry, lo: nat, hi: nat)
    requires HasAt(d, 0, SIGNATURE) && ListMem(d, cancel).code == RarOk && e in ListMem(d, cancel).entries
    requires DiffersIn(d, d', lo, hi) && e.dataOffset <= lo && hi <= End(e)
    ensures ListMem(d', cancel) == ListMem(d, cancel)
    ensures ListStream(d', false, cancel) == ListStream(d, false, cancel)
  {
    hide Walk, ReadBlock, FirstAccepted, ChunkScan, DiffersIn, HasBit;
    DamageSize(d, d', lo, hi);
    WalkAround(d, d', 8, false, cancel, 0, 0, e, lo, hi);
    WalkReads(d, 8, false, cancel, 0, 0);
    WalkEvents(d, 8, false, cancel, 0, 0);
    HeaderPlace(d, e);
    Before(d, d', lo, hi, 0, 8);
  }
}
