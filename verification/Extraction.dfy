/** BufferArchive::extract of src/archive/buffer_archive.cpp with the caps of src/archive/extraction_limits.hpp,
    over any decoder and any digest. */
module Extraction {
  import opened Options
  import opened ByteStrings
  import opened PowersOfTwo
  import opened HeaderWalk
  import opened Listing
  import Signature
  import BlockFrame

  const UNLIMITED: nat := TWO64 - 1
  const HARD_MEMBER_CAP: nat := 64 * 1024 * 1024 * 1024
  const ALLOC_LIMIT: nat := 64 * 1024 * 1024 * 1024
  const DEFAULT_WINDOW: nat := 32 * 1024 * 1024

  datatype Limits = Limits(member: nat, total: nat)

  datatype DecodeError = AllocationFailed | DictionaryTooLarge | Malformed

  /** A decoder's run: the chunks it hands to the callback, then how it ends. */
  datatype Decoded = Decoded(chunks: seq<Bytes>, error: Option<DecodeError>)

  /** Payload, window, table flavour and size wanted. */
  type Decoder = (Bytes, nat, bool, nat) -> Decoded

  type Digest = Bytes -> Bytes

  /** `size` more bytes would break a cap, given `total` bytes already charged. */
  predicate Over(limits: Option<Limits>, size: nat, total: nat) {
    limits.Some? &&
    var l := limits.value;
    || (l.member != UNLIMITED && size > l.member)
    || (l.total != UNLIMITED && (total > l.total || size > Room(l, total)))
  }

  /** What the total cap leaves; the subtraction is guarded wherever it is made. */
  function Room(l: Limits, total: nat): nat
    requires total <= l.total
  {
    l.total - total
  }

  function EffectiveCap(limits: Option<Limits>): nat {
    if limits.Some? && limits.value.member != UNLIMITED && limits.value.member < HARD_MEMBER_CAP
      then limits.value.member
    else HARD_MEMBER_CAP
  }

  /** The test that the chunk callback makes before it keeps a chunk. */
  predicate Refuses(limits: Option<Limits>, total: nat, size: nat) {
    || size > EffectiveCap(limits)
    || (limits.Some? && limits.value.total != UNLIMITED &&
        (total > limits.value.total || size > Room(limits.value, total)))
  }

  /** The output after the decoder's chunks, and whether one of them was refused. */
  function Collect(chunks: seq<Bytes>, out: Bytes, limits: Option<Limits>, total: nat): (bool, Bytes) {
    if chunks == [] then (false, out)
    else if Refuses(limits, total, |out| + |chunks[0]|) then (true, out)
    else Collect(chunks[1..], out + chunks[0], limits, total)
  }

  /** `charged` says whether the output was added to the running total. */
  datatype Extract = Extract(code: Code, out: Bytes, charged: bool)

  function WantedSize(e: Entry, limits: Option<Limits>): nat {
    if e.size < EffectiveCap(limits) then e.size else EffectiveCap(limits)
  }

  /** The window of the header, or a default when it names none. */
  function WindowOf(e: Entry): nat { if e.winSize > 0 then e.winSize else DEFAULT_WINDOW }

  function Decompress(payload: Bytes, e: Entry, limits: Option<Limits>, total: nat, decode: Decoder): Extract {
    if e.size > EffectiveCap(limits) || e.winSize > ALLOC_LIMIT then Extract(ErrLimit, [], false)
    else
      var run := decode(payload, WindowOf(e), e.extraDist, WantedSize(e, limits));
      var (refused, out) := Collect(run.chunks, [], limits, total);
      if refused then Extract(ErrLimit, out, false)
      else if run.error.Some? then
        match run.error.value
        case AllocationFailed => Extract(ErrNoMem, out, false)
        case DictionaryTooLarge => Extract(ErrLimit, out, false)
        case Malformed => Extract(ErrTruncated, out, false)
      else if |out| != e.size then Extract(ErrTruncated, out, false)
      else Extract(RarOk, out, true)
  }

  function Produce(payload: Bytes, e: Entry, limits: Option<Limits>, total: nat, decode: Decoder): Extract {
    if e.packMethod == 0 then
      if Over(limits, |payload|, total) then Extract(ErrLimit, [], false)
      else if |payload| != e.size then Extract(ErrTruncated, payload, false)
      else Extract(RarOk, payload, true)
    else if e.packMethod <= 5 then Decompress(payload, e, limits, total, decode)
    else Extract(ErrUnsupported, [], false)
  }

  /** The checksum and digest of the output against the header's. */
  predicate Checks(e: Entry, out: Bytes, digest: Digest) {
    (e.crc.Some? ==> CrcOf(out) == e.crc.value) && (e.blake2sp.Some? ==> digest(out) == e.blake2sp.value)
  }

  function ExtractEntry(d: Bytes, e: Entry, limits: Option<Limits>, total: nat, decode: Decoder,
      digest: Digest): Extract {
    if e.size > 0 && Over(limits, e.size, total) then Extract(ErrLimit, [], false)
    else if e.isDir then Extract(RarOk, [], false)
    else if e.isEncrypted then Extract(ErrUnsupported, [], false)
    else if e.packedSize == 0 then Extract(if e.size != 0 then ErrTruncated else RarOk, [], false)
    else if e.dataOffset > |d| || e.packedSize > |d| - e.dataOffset then Extract(ErrTruncated, [], false)
    else if Over(limits, e.size, total) then Extract(ErrLimit, [], false)
    else
      var x := Produce(d[e.dataOffset..e.dataOffset + e.packedSize], e, limits, total, decode);
      if x.code == RarOk && !Checks(e, x.out, digest) then x.(code := ErrCrc) else x
  }

  /** The running total after a call. */
  function Charge(x: Extract, limits: Option<Limits>, total: nat): nat {
    if limits.Some? && x.charged then total + |x.out| else total
  }

  class LimitState {
    var memberOut: nat
    var totalOut: nat

    constructor ()
      ensures memberOut == 0 && totalOut == 0
    {
      memberOut, totalOut := 0, 0;
    }
  }

  /** The chunk callback run over a decoder's chunks. */
  method CollectChunks(chunks: seq<Bytes>, limits: Option<Limits>, total: nat) returns (refused: bool, out: Bytes)
    ensures (refused, out) == Collect(chunks, [], limits, total)
  {
    hide Refuses;
    out := [];
    for i := 0 to |chunks|
      invariant Collect(chunks[i..], out, limits, total) == Collect(chunks, [], limits, total)
    {
      assert chunks[i..][1..] == chunks[i + 1..];
      if Refuses(limits, total, |out| + |chunks[i]|) { return true, out; }
      out := out + chunks[i];
    }
    refused := false;
  }

  method DecompressInto(payload: Bytes, e: Entry, limits: Option<Limits>, total: nat,
      decode: Decoder) returns (x: Extract)
    ensures x == Decompress(payload, e, limits, total, decode)
  {
    hide Collect;
    if e.size > EffectiveCap(limits) || e.winSize > ALLOC_LIMIT { return Extract(ErrLimit, [], false); }
    var run := decode(payload, WindowOf(e), e.extraDist, WantedSize(e, limits));
    var refused, out := CollectChunks(run.chunks, limits, total);
    if refused { return Extract(ErrLimit, out, false); }
    match run.error
    case Some(AllocationFailed) => return Extract(ErrNoMem, out, false);
    case Some(DictionaryTooLarge) => return Extract(ErrLimit, out, false);
    case Some(Malformed) => return Extract(ErrTruncated, out, false);
    case None => return if |out| != e.size then Extract(ErrTruncated, out, false) else Extract(RarOk, out, true);
  }

  // ----- What success means

  /** What a caller may rely on: the declared size, the header's checksum and digest whenever there is a payload, and
      the payload itself when it is stored. */
  ghost predicate Checked(d: Bytes, e: Entry, out: Bytes, digest: Digest) {
    && |out| == e.size
    && (e.packedSize > 0 && e.crc.Some? ==> CrcOf(out) == e.crc.value)
    && (e.packedSize > 0 && e.blake2sp.Some? ==> digest(out) == e.blake2sp.value)
    && (e.packedSize > 0 && e.packMethod == 0 ==> HasAt(d, e.dataOffset, out) && |out| == e.packedSize)
  }

  /** A file that extracts without error has passed its checks. */
  lemma GoodIsChecked(d: Bytes, e: Entry, limits: Option<Limits>, total: nat, decode: Decoder, digest: Digest)
    requires ExtractEntry(d, e, limits, total, decode, digest).code == RarOk && !e.isDir
    ensures Checked(d, e, ExtractEntry(d, e, limits, total, decode, digest).out, digest)
  {
    hide Collect, CrcOf;
  }

  /** Damage to up to four consecutive bytes of a stored payload with a checksum is always reported as such. */
  lemma DamagedPayload(d: Bytes, d': Bytes, e: Entry, limits: Option<Limits>, total: nat, decode: Decoder,
      digest: Digest, lo: nat, hi: nat)
    requires ExtractEntry(d, e, limits, total, decode, digest).code == RarOk && !e.isDir
    requires e.packMethod == 0 && e.packedSize > 0 && e.crc.Some?
    requires DiffersIn(d, d', lo, hi) && e.dataOffset <= lo && hi <= e.dataOffset + e.packedSize && hi <= lo + 4
    ensures ExtractEntry(d', e, limits, total, decode, digest).code == ErrCrc
  {
    hide Collect, CrcOf, DiffersIn;
    GoodIsChecked(d, e, limits, total, decode, digest);
    DamageSize(d, d', lo, hi);
    DamageChangesCrc(d, d', lo, hi, e.dataOffset, e.dataOffset + e.packedSize);
  }

  /** Without limits, how every call on an entry ends. */
  lemma ExtractCodes(d: Bytes, e: Entry, total: nat, decode: Decoder, digest: Digest)
    ensures var x := ExtractEntry(d, e, None, total, decode, digest);
      var hasPayload := !e.isDir && !e.isEncrypted && e.packedSize > 0;
      var inside := hasPayload && e.dataOffset + e.packedSize <= |d|;
      && (e.isDir || (!e.isEncrypted && e.packedSize == 0 && e.size == 0) ==> x.code == RarOk && x.out == [])
      && (!e.isDir && e.isEncrypted ==> x.code == ErrUnsupported)
      && (!e.isDir && !e.isEncrypted && e.packedSize == 0 && e.size > 0 ==> x.code == ErrTruncated)
      && (hasPayload && !inside ==> x.code == ErrTruncated)
      && (inside && e.packMethod == 0 && e.size != e.packedSize ==> x.code == ErrTruncated)
      && (inside && e.packMethod == 0 && e.size == e.packedSize ==>
            x.out == d[e.dataOffset..e.dataOffset + e.packedSize] && x.code in {RarOk, ErrCrc})
      && (inside && e.packMethod > 5 ==> x.code == ErrUnsupported)
      && (x.code == ErrCrc ==>
            || (e.crc.Some? && CrcOf(x.out) != e.crc.value)
            || (e.blake2sp.Some? && digest(x.out) != e.blake2sp.value))
      && (!e.isDir && x.code == RarOk ==> Checked(d, e, x.out, digest))
  {
    hide CrcOf, Collect;
    if ExtractEntry(d, e, None, total, decode, digest).code == RarOk && !e.isDir {
      GoodIsChecked(d, e, None, total, decode, digest);
    }
  }

  /** How a compressed member within its caps ends, by what its decoder does. */
  lemma DecodeCodes(payload: Bytes, e: Entry, limits: Option<Limits>, total: nat, decode: Decoder)
    requires e.size <= EffectiveCap(limits) && e.winSize <= 68719476736
    ensures var run := decode(payload, WindowOf(e), e.extraDist, e.size);
      var x := Decompress(payload, e, limits, total, decode);
      if Collect(run.chunks, [], limits, total).0 then x.code == ErrLimit
      else if run.error == Some(AllocationFailed) then x.code == ErrNoMem
      else if run.error == Some(DictionaryTooLarge) then x.code == ErrLimit
      else if run.error == Some(Malformed) || |x.out| != e.size then x.code == ErrTruncated
      else x.code == RarOk
  {
    hide Collect;
  }

  /** The decoder is asked once, for the payload with the header's window or 32 MiB, the header's table flavour, and
      the declared size; nothing else about it matters. Windows above 64 GiB are refused unasked. */
  lemma DecoderRequest(payload: Bytes, e: Entry, limits: Option<Limits>, total: nat, decode: Decoder, other: Decoder)
    requires var window := if e.winSize == 0 then 33554432 else e.winSize;
      decode(payload, window, e.extraDist, e.size) == other(payload, window, e.extraDist, e.size)
    ensures Decompress(payload, e, limits, total, decode) == Decompress(payload, e, limits, total, other)
    ensures e.winSize > 68719476736 ==> Decompress(payload, e, limits, total, decode).code == ErrLimit
  {
    hide Collect;
  }

  // ----- Caps over one call

  lemma {:induction false} CollectWithin(chunks: seq<Bytes>, out: Bytes, limits: Option<Limits>, total: nat)
    requires out == [] || !Refuses(limits, total, |out|)
    ensures Collect(chunks, out, limits, total).1 == [] ||
        !Refuses(limits, total, |Collect(chunks, out, limits, total).1|)
    decreases |chunks|
  {
    hide Refuses;
    if chunks != [] && !Refuses(limits, total, |out| + |chunks[0]|) {
      CollectWithin(chunks[1..], out + chunks[0], limits, total);
    }
  }

  /** Whatever a call ends with, its output is within the member cap and, on top of what was charged before, within
      the total cap. */
  lemma OutputCapped(d: Bytes, e: Entry, limits: Option<Limits>, total: nat, decode: Decoder, digest: Digest)
    requires limits.Some? && (limits.value.total != 18446744073709551615 ==> total <= limits.value.total)
    ensures var out := ExtractEntry(d, e, limits, total, decode, digest).out;
      && (limits.value.member != 18446744073709551615 ==> |out| <= limits.value.member)
      && (limits.value.total != 18446744073709551615 ==> total + |out| <= limits.value.total)
      && (e.packMethod != 0 ==> |out| <= 68719476736)
  {
    hide Collect, Checks;
    if e.dataOffset + e.packedSize <= |d| {
      var payload := d[e.dataOffset..e.dataOffset + e.packedSize];
      var run := decode(payload, WindowOf(e), e.extraDist, WantedSize(e, limits));
      CollectWithin(run.chunks, [], limits, total);
    }
  }

  // ----- Caps over whole runs

  datatype Call = Call(data: Bytes, entry: Entry, decode: Decoder)

  /** The calls of a run, one after the other, sharing one state. */
  function RunTotal(calls: seq<Call>, limits: Option<Limits>, digest: Digest): nat {
    if calls == [] then 0
    else
      var before, c := RunTotal(calls[..|calls| - 1], limits, digest), calls[|calls| - 1];
      Charge(ExtractEntry(c.data, c.entry, limits, before, c.decode, digest), limits, before)
  }

  /** The bytes that each call of a run charges. */
  function Charges(calls: seq<Call>, limits: Option<Limits>, digest: Digest): seq<nat> {
    if calls == [] then []
    else
      var prefix, c := calls[..|calls| - 1], calls[|calls| - 1];
      var x := ExtractEntry(c.data, c.entry, limits, RunTotal(prefix, limits, digest), c.decode, digest);
      Charges(prefix, limits, digest) + [if limits.Some? && x.charged then |x.out| else 0]
  }

  function SumOf(s: seq<nat>): nat { if s == [] then 0 else SumOf(s[..|s| - 1]) + s[|s| - 1] }

  /** Over any run of calls on a fresh state the total never exceeds its cap and is the sum of what the calls
      charged, each within the member cap. */
  lemma {:induction false} RunWithinLimits(calls: seq<Call>, limits: Option<Limits>, digest: Digest)
    requires limits.Some?
    ensures limits.value.total != 18446744073709551615 ==> RunTotal(calls, limits, digest) <= limits.value.total
    ensures RunTotal(calls, limits, digest) == SumOf(Charges(calls, limits, digest))
    ensures |Charges(calls, limits, digest)| == |calls|
    ensures limits.value.member != 18446744073709551615 ==>
      forall i :: 0 <= i < |calls| ==> Charges(calls, limits, digest)[i] <= limits.value.member
  {
    hide ExtractEntry;
    if calls != [] {
      var prefix, c := calls[..|calls| - 1], calls[|calls| - 1];
      RunWithinLimits(prefix, limits, digest);
      OutputCapped(c.data, c.entry, limits, RunTotal(prefix, limits, digest), c.decode, digest);
      var all := Charges(calls, limits, digest);
      assert all[..|all| - 1] == Charges(prefix, limits, digest);
    }
  }

  // ----- The cached archive

  class BufferArchive {
    var entries: seq<Entry>
    var buffer: Option<Bytes>

    constructor ()
      ensures entries == [] && buffer == None
    {
      entries, buffer := [], None;
    }

    /** list: the entries are cached for the buffer they came from. */
    method List(data: Bytes, cancel: nat -> bool) returns (r: ListResult)
      modifies this
      ensures r == ListMem(data, cancel)
      ensures entries == r.entries
      ensures r.code == RarOk ==> buffer == Some(data)
    {
      hide Walk, Signature.Search;
      entries := [];
      if |data| == 0 { return ListResult(ErrTruncated, [], []); }
      var sig := Signature.FindSignature(data);
      if sig.None? { return ListResult(ErrNotRar, [], []); }
      var src := new BlockFrame.FileStream(data);
      src.Seek(sig.value + 8);
      var status, found, arcFlags, events := WalkHeaders(src, false, false, cancel, 0);
      r := Conclude(data, [], sig.value, Outcome(status, found, arcFlags, events), false);
      entries := r.entries;
      if r.code == RarOk { buffer := Some(data); }
    }

    /** extract: one cached entry. */
    method Extract(data: Bytes, index: nat, limits: Option<Limits>, state: LimitState, decode: Decoder, digest: Digest)
      returns (code: Code, out: Bytes)
      modifies state
      ensures |data| == 0 ==> code == ErrTruncated
      ensures |data| > 0 && (index >= |entries| || buffer != Some(data)) ==> code == ErrInvalidArg
      ensures |data| > 0 && index < |entries| && buffer == Some(data) ==>
        var x := ExtractEntry(data, entries[index], limits, old(state.totalOut), decode, digest);
        code == x.code && out == x.out && state.totalOut == Charge(x, limits, old(state.totalOut))
      ensures |data| == 0 || index >= |entries| || buffer != Some(data) ==>
          out == [] && state.totalOut == old(state.totalOut)
    {
      hide Collect, Decompress, Checks;
      if |data| == 0 { return ErrTruncated, []; }
      if index >= |entries| || buffer != Some(data) { return ErrInvalidArg, []; }
      var e := entries[index];
      state.memberOut := 0;
      if e.size > 0 && Over(limits, e.size, state.totalOut) { return ErrLimit, []; }
      if e.isDir { return RarOk, []; }
      if e.isEncrypted { return ErrUnsupported, []; }
      if e.packedSize == 0 { return if e.size != 0 then ErrTruncated else RarOk, []; }
      if e.dataOffset > |data| || e.packedSize > |data| - e.dataOffset { return ErrTruncated, []; }
      var payload := data[e.dataOffset..e.dataOffset + e.packedSize];
      if Over(limits, e.size, state.totalOut) { return ErrLimit, []; }
      if e.packMethod == 0 {
        if Over(limits, e.packedSize, state.totalOut) { return ErrLimit, []; }
        out := payload;
        if |out| != e.size { return ErrTruncated, out; }
      } else if e.packMethod <= 5 {
        var x := DecompressInto(payload, e, limits, state.totalOut, decode);
        out := x.out;
        if x.code != RarOk {
          OnlyGoodIsCharged(payload, e, limits, state.totalOut, decode);
          return x.code, out;
        }
        OnlyGoodIsCharged(payload, e, limits, state.totalOut, decode);
      } else {
        return ErrUnsupported, [];
      }
      if limits.Some? { state.memberOut, state.totalOut := |out|, state.totalOut + |out|; }
      code := if Checks(e, out, digest) then RarOk else ErrCrc;
    }
  }

  lemma OnlyGoodIsCharged(payload: Bytes, e: Entry, limits: Option<Limits>, total: nat, decode: Decoder)
    ensures Decompress(payload, e, limits, total, decode).charged <==>
        Decompress(payload, e, limits, total, decode).code == RarOk
  {
    hide Collect;
  }
}
