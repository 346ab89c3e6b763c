/** An archive behind one stub byte whose main header uses padded integers: readable in memory, invisible to the
    16-byte peek. */
module PaddedHeader {
  import opened Options
  import opened ByteStrings
  import opened Vint
  import opened BlockFrame
  import opened Headers
  import opened HeaderWalk
  import opened Signature
  import opened Listing

  /** The value 5 in ten bytes. */
  const SIZE: Bytes := [0x85, 0x80, 0x80, 0x80, 0x80, 0x80, 0x80, 0x80, 0x80, 0x00]

  /** Type 1 in three bytes, no flags, no archive flags. */
  const BODY: Bytes := [0x81, 0x80, 0x00, 0x00, 0x00]

  function Archive(): Bytes { [0] + SIGNATURE + Le32(CrcOf(SIZE + BODY)) + SIZE + BODY }

  lemma Pieces(d: Bytes)
    requires d == Archive()
    ensures |d| == 28 && d[0] == 0
    ensures HasAt(d, 1, SIGNATURE) && HasAt(d, 9, Le32(CrcOf(SIZE + BODY)))
    ensures HasAt(d, 13, SIZE) && HasAt(d, 23, BODY) && d[13..28] == SIZE + BODY
  {
    hide Le32, CrcOf;
  }

  lemma SizeReads()
    ensures ReadVint(SIZE, 0) == Some(Vint(5, 10))
  {
    assert Groups(SIZE, 0, 9) == Some(Vint(0, 10));
    assert Groups(SIZE, 0, 7) == Some(Vint(0, 10));
    assert Groups(SIZE, 0, 5) == Some(Vint(0, 10));
    assert Groups(SIZE, 0, 3) == Some(Vint(0, 10));
    assert Groups(SIZE, 0, 1) == Some(Vint(0, 10));
  }

  lemma BodyReads()
    ensures ReadVint(BODY, 0) == Some(Vint(1, 3))
    ensures ReadVint(BODY, 3) == Some(Vint(0, 1))
    ensures ReadVint(BODY, 4) == Some(Vint(0, 1))
  {
    assert Groups(BODY, 0, 1) == Some(Vint(0, 3));
  }

  lemma HeaderReads(d: Bytes)
    requires d == Archive()
    ensures ReadVint(d, 13) == Some(Vint(5, 10))
    ensures ReadBlock(d, 9) == Ok(Block(Fields(HEAD_MAIN, 0, 0, 0, 4), BODY, 28))
  {
    hide CrcOf, Le32, ReadLe32, ReadVint, HasAt;
    Pieces(d);
    SizeReads();
    BodyReads();
    WindowAt(SIZE, d, 13);
    NameAt(d, 23, BODY);
    CrcBound(SIZE + BODY);
    Le32RoundTrip(d, 9, CrcOf(SIZE + BODY));
  }

  lemma WindowAt(w: Bytes, d: Bytes, pos: nat)
    requires HasAt(d, pos, w) && ReadVint(w, 0).Some?
    ensures ReadVint(d, pos) == ReadVint(w, 0)
  {
    VintInWindow(w, d, pos);
  }

  /** The signature stands at offset 1 and nowhere else. */
  lemma OnlyOne(d: Bytes, j: nat)
    requires d == Archive()
    ensures HasAt(d, j, SIGNATURE) ==> j == 1
  {
    hide CrcOf, Le32;
    if j + 8 <= |d| {
      var w := d[j..j + 8];
      assert w[0] == d[j] && w[4] == d[j + 4];
    }
  }

  /** In memory the empty archive lists; streamed, it is not recognised. */
  lemma ListingsDiffer(cancel: nat -> bool)
    requires forall k :: !cancel(k)
    ensures ListMem(Archive(), cancel).code == RarOk && ListMem(Archive(), cancel).entries == []
    ensures ListStream(Archive(), false, cancel).code == ErrNotRar
    ensures !PeekSuffices(Archive())
  {
    hide ReadBlock, Accepts, MemAccepts, StreamAccepts, HasAt, FirstAccepted, ChunkScan, ParseMain, Walk, Archive,
         ReadVint;
    var d := Archive();
    Pieces(d);
    HeaderReads(d);
    BodyReads();
    OnlyOne(d, 0);
    MemAcceptsExactly(d, 1);
    StreamAcceptsExactly(d, 1);
    AcceptedOnce(d);
    ChunkScanFindsFirst(d, 0, cancel, 0);
    WalksToEnd(d, cancel);
  }

  lemma AcceptedOnce(d: Bytes)
    requires d == Archive() && MemAccepts(d, 1) && !StreamAccepts(d, 1)
    ensures FirstAccepted(d, 0, ScanLimit(d), false) == Some(1)
    ensures FirstAccepted(d, 0, ScanLimit(d), true) == None
  {
    hide MemAccepts, StreamAccepts, HasAt, Archive, FirstAccepted;
    Pieces(d);
    FirstAcceptedFacts(d, 0, ScanLimit(d), false, 1);
    FirstAcceptedFacts(d, 0, ScanLimit(d), true, 1);
    var m, s := FirstAccepted(d, 0, ScanLimit(d), false), FirstAccepted(d, 0, ScanLimit(d), true);
    OnlyOne(d, if m.Some? then m.value else 1);
    OnlyOne(d, if s.Some? then s.value else 1);
  }

  lemma WalksToEnd(d: Bytes, cancel: nat -> bool)
    requires d == Archive() && forall k :: !cancel(k)
    ensures Walk(d, 9, false, cancel, 0, 0) == Outcome(Done, [], 0, [9])
  {
    hide ReadBlock, Archive, ParseMain, FileStep, ParseEnd, StepAt;
    Pieces(d);
    StepsOver(d);
    assert Walk(d, 28, false, cancel, 1, 0) == Outcome(Done, [], 0, []);
  }

  lemma StepsOver(d: Bytes)
    requires d == Archive()
    ensures StepAt(d, 9, false) == Next(28, None, Some(0), false)
  {
    hide ReadBlock, Archive, ParseMain, FileStep, ParseEnd;
    HeaderReads(d);
    MainParses();
  }

  lemma MainParses()
    ensures ParseMain(BODY) == Some(0)
  {
    hide ReadVint;
    BodyReads();
  }
}
