/** BufferArchive::extract_all of src/archive/buffer_archive.cpp. */
module ExtractAll {
  import opened Options
  import opened ByteStrings
  import opened PowersOfTwo
  import opened HeaderWalk
  import opened Listing
  import opened Extraction
  import opened Collisions
  import opened ProgressTrackers
  import Signature

  const MAX_TOTAL_OUTPUT: nat := 64 * 1024 * 1024 * 1024

  datatype Extracted = Extracted(path: Bytes, data: Bytes)

  datatype AllResult = AllResult(code: Code, files: seq<Extracted>, total: nat)

  function Prefixed(f: Extracted, r: AllResult): AllResult { r.(files := [f] + r.files) }

  /** The entry loop from entry i on, with `cumulative` bytes in hand and `total` charged to the limit state. */
  function ExtractFrom(d: Bytes, entries: seq<Entry>, i: nat, cumulative: nat, total: nat,
                       limits: Option<Limits>, decode: Decoder, digest: Digest, cancel: nat -> bool): AllResult
    requires i <= |entries|
    decreases |entries| - i
  {
    hide *;
    if i == |entries| then AllResult(RarOk, [], total)
    else if cancel(i) then AllResult(ErrAborted, [], total)
    else
      var e := entries[i];
      if e.isDir then
        Prefixed(Extracted(e.path, []),
            ExtractFrom(d, entries, i + 1, cumulative, total, limits, decode, digest, cancel))
      else if Over(limits, e.size, total) then AllResult(ErrLimit, [], total)
      else if cumulative > MAX_TOTAL_OUTPUT || e.size > MAX_TOTAL_OUTPUT - cumulative
          then AllResult(ErrNoMem, [], total)
      else
        var x := ExtractEntry(d, e, limits, total, decode, digest);
        var charged := Charge(x, limits, total);
        if x.code == ErrLimit then AllResult(ErrLimit, [], charged)
        else if x.code != RarOk then AllResult(ErrPartial, [Extracted(e.path, [])], charged)
        else if cumulative + |x.out| > MAX_TOTAL_OUTPUT then AllResult(ErrNoMem, [Extracted(e.path, x.out)], charged)
        else
          Prefixed(Extracted(e.path, x.out),
                   ExtractFrom(d, entries, i + 1, cumulative + |x.out|, charged, limits, decode, digest, cancel))
  }

  function Items(entries: seq<Entry>): seq<Item> {
    seq(|entries|, i requires 0 <= i < |entries| => Item(entries[i].path, entries[i].isDir))
  }

  /** The sum of the declared file sizes, in 64-bit arithmetic. */
  function DeclaredTotal(entries: seq<Entry>): nat {
    if entries == [] then 0
    else
      var rest, e := DeclaredTotal(entries[..|entries| - 1]), entries[|entries| - 1];
      if e.isDir then rest else (rest + e.size) % TWO64
  }

  /** The part of the payload phase that is done; the product is a 64-bit one. */
  function Share(cumulative: nat, payloadPhase: nat, total: nat): nat
    requires total > 0
  {
    cumulative * payloadPhase % TWO64 / total
  }

  /** Progress after an entry: half the bar is listing, the rest follows the bytes extracted. */
  function DoneAfter(cumulative: nat, total: nat, last: bool): (done: nat)
    ensures done <= total
    ensures !last && total > 0 ==> done < total
  {
    hide Share;
    var listPhase := total / 2;
    var done := listPhase + if total > 0 then Share(cumulative, total - listPhase, total) else total - listPhase;
    if done < total then done
    else if !last then (if total > 0 then total - 1 else 0)
    else total
  }

  /** Every report stays short of the total. */
  ghost predicate Short(reports: seq<(nat, nat)>, total: nat) {
    forall i :: 0 <= i < |reports| ==> reports[i].0 < total
  }

  /** Monotone, never past the total, and at the total exactly once, at the end. */
  ghost predicate Finishes(reports: seq<(nat, nat)>, total: nat) {
    && Steady(reports, total) && |reports| > 0
    && reports[|reports| - 1].0 == total
    && Short(reports[..|reports| - 1], total)
  }

  /** The bar has been reported against `total` but not yet filled. */
  ghost predicate Underway(prog: ProgressTracker, total: nat)
    reads prog
  {
    prog.Valid(total) && (total > 0 ==> Short(prog.reports, total) && prog.done < total)
  }

  /** An empty bar, then half a bar for the listing. */
  method StartBar(total: nat) returns (prog: ProgressTracker)
    ensures fresh(prog) && Underway(prog, total) && Steady(prog.reports, total)
  {
    prog := new ProgressTracker(total);
    prog.Set(0, total);
    prog.Set(total / 2, total);
  }

  method AdvanceBar(prog: ProgressTracker, done: nat, total: nat)
    requires Underway(prog, total) && done < total
    modifies prog
    ensures Underway(prog, total) && Steady(prog.reports, total)
  {
    prog.Set(done, total);
  }

  method FinishBar(prog: ProgressTracker, total: nat)
    requires Underway(prog, total)
    modifies prog
    ensures Steady(prog.reports, total) && (total > 0 ==> Finishes(prog.reports, total))
  {
    prog.Set(total, total);
  }

  /** The extraction phase, after listing and collision detection. */
  method ExtractEntries(archive: BufferArchive, d: Bytes, limits: Option<Limits>, state: LimitState,
                        decode: Decoder, digest: Digest, cancel: nat -> bool)
    returns (code: Code, files: seq<Extracted>, reports: seq<(nat, nat)>)
    requires |d| > 0 && archive.buffer == Some(d)
    modifies state
    ensures AllResult(code, files, state.totalOut) ==
        ExtractFrom(d, archive.entries, 0, 0, old(state.totalOut), limits, decode, digest, cancel)
    ensures Steady(reports, DeclaredTotal(archive.entries))
    ensures code == RarOk && DeclaredTotal(archive.entries) > 0 ==> Finishes(reports, DeclaredTotal(archive.entries))
  {
    hide *;
    var entries := archive.entries;
    var total := SumSizes(entries);
    var prog := StartBar(total);
    files := [];
    var cumulative: nat := 0;
    ghost var all := ExtractFrom(d, entries, 0, 0, state.totalOut, limits, decode, digest, cancel);
    assert [] + all.files == all.files;
    for i := 0 to |entries|
      invariant Underway(prog, total) && Steady(prog.reports, total) && fresh(prog)
      invariant cumulative <= MAX_TOTAL_OUTPUT
      invariant all ==
        (var r := ExtractFrom(d, entries, i, cumulative, state.totalOut, limits, decode, digest,
        cancel); r.(files := files + r.files))
    {
      ghost var before := files;
      Unfold(d, entries, i, cumulative, state.totalOut, limits, decode, digest, cancel, files);
      if cancel(i) { return ErrAborted, files, prog.reports; }
      var e := entries[i];
      if e.isDir {
        files := files + [Extracted(e.path, [])];
        continue;
      }
      if Over(limits, e.size, state.totalOut) { return ErrLimit, files, prog.reports; }
      if e.size > MAX_TOTAL_OUTPUT - cumulative { return ErrNoMem, files, prog.reports; }
      var rc, bytes := archive.Extract(d, i, limits, state, decode, digest);
      if rc == ErrLimit { return ErrLimit, files, prog.reports; }
      if rc != RarOk { return ErrPartial, files + [Extracted(e.path, [])], prog.reports; }
      files := files + [Extracted(e.path, bytes)];
      cumulative := cumulative + |bytes|;
      if cumulative > MAX_TOTAL_OUTPUT { return ErrNoMem, files, prog.reports; }
      var done := DoneAfter(cumulative, total, i + 1 >= |entries|);
      if done < total { AdvanceBar(prog, done, total); }
    }
    AtEnd(d, entries, cumulative, state.totalOut, limits, decode, digest, cancel, files);
    FinishBar(prog, total);
    code, reports := RarOk, prog.reports;
  }

  lemma AtEnd(d: Bytes, entries: seq<Entry>, cumulative: nat, total: nat,
              limits: Option<Limits>, decode: Decoder, digest: Digest, cancel: nat -> bool, files: seq<Extracted>)
    ensures ExtractFrom(d, entries, |entries|, cumulative, total, limits, decode, digest, cancel) ==
        AllResult(RarOk, [], total)
    ensures files + [] == files
  {
  }

  lemma PrefixedJoin(files: seq<Extracted>, f: Extracted, r: AllResult)
    ensures Prefixed(f, r).(files := files + Prefixed(f, r).files) == r.(files := files + [f] + r.files)
  {
    assert files + ([f] + r.files) == files + [f] + r.files;
  }

  lemma Unfold(d: Bytes, entries: seq<Entry>, i: nat, cumulative: nat, total: nat,
               limits: Option<Limits>, decode: Decoder, digest: Digest, cancel: nat -> bool, files: seq<Extracted>)
    requires i < |entries| && cumulative <= MAX_TOTAL_OUTPUT
    ensures var e := entries[i];
      var r := ExtractFrom(d, entries, i, cumulative, total, limits, decode, digest, cancel);
      var all := r.(files := files + r.files);
      var x := ExtractEntry(d, e, limits, total, decode, digest);
      var charged := Charge(x, limits, total);
      if cancel(i) then all == AllResult(ErrAborted, files, total)
      else if e.isDir then
        var next := ExtractFrom(d, entries, i + 1, cumulative, total, limits, decode, digest, cancel);
        all == next.(files := files + [Extracted(e.path, [])] + next.files)
      else if Over(limits, e.size, total) then all == AllResult(ErrLimit, files, total)
      else if e.size > MAX_TOTAL_OUTPUT - cumulative then all == AllResult(ErrNoMem, files, total)
      else if x.code == ErrLimit then all == AllResult(ErrLimit, files, charged)
      else if x.code != RarOk then all == AllResult(ErrPartial, files + [Extracted(e.path, [])], charged)
      else if cumulative + |x.out| > MAX_TOTAL_OUTPUT
          then all == AllResult(ErrNoMem, files + [Extracted(e.path, x.out)], charged)
      else
        var next := ExtractFrom(d, entries, i + 1, cumulative + |x.out|, charged, limits, decode, digest, cancel);
        all == next.(files := files + [Extracted(e.path, x.out)] + next.files)
  {
    hide ExtractEntry, Over, Charge;
    assert files + [] == files;
    var e, x := entries[i], ExtractEntry(d, entries[i], limits, total, decode, digest);
    PrefixedJoin(files, Extracted(e.path, []),
        ExtractFrom(d, entries, i + 1, cumulative, total, limits, decode, digest, cancel));
    PrefixedJoin(files, Extracted(e.path, x.out),
                 ExtractFrom(d, entries, i + 1, cumulative + |x.out|, Charge(x, limits, total), limits, decode, digest,
                     cancel));
  }

  method SumSizes(entries: seq<Entry>) returns (total: nat)
    ensures total == DeclaredTotal(entries)
  {
    total := 0;
    for i := 0 to |entries|
      invariant total == DeclaredTotal(entries[..i])
    {
      assert entries[..i + 1][..i] == entries[..i];
      if !entries[i].isDir { total := (total + entries[i].size) % TWO64; }
    }
    assert entries[..|entries|] == entries;
  }

  /** What extract_all comes to: the listing's error, the refusal of internal collisions, or the entry loop. */
  ghost function RunResult(d: Bytes, limits: Option<Limits>, total: nat, decode: Decoder, digest: Digest,
                           fold: Bytes -> Bytes, nfc: Bytes -> Bytes, cancel: nat -> bool): AllResult {
    hide *;
    var listed := ListMem(d, Never);
    if listed.code != RarOk then AllResult(listed.code, [], total)
    else if Colliding(Views(Items(listed.entries), fold, nfc)) then AllResult(ErrNotRar, [], total)
    else ExtractFrom(d, listed.entries, 0, 0, total, limits, decode, digest, cancel)
  }

  /** extract_all: list, refuse internal collisions, extract. */
  method Run(archive: BufferArchive, d: Bytes, limits: Option<Limits>, state: LimitState, decode: Decoder,
      digest: Digest,
             fold: Bytes -> Bytes, nfc: Bytes -> Bytes, cancel: nat -> bool)
    returns (code: Code, files: seq<Extracted>, reports: seq<(nat, nat)>)
    modifies archive, state
    ensures AllResult(code, files, state.totalOut) ==
        RunResult(d, limits, old(state.totalOut), decode, digest, fold, nfc, cancel)
    ensures var total := DeclaredTotal(ListMem(d, Never).entries); code == RarOk && total > 0 ==>
        Finishes(reports, total)
  {
    hide ListMem, Colliding, Views, Items, ExtractFrom, DeclaredTotal, Finishes, Steady;
    files, reports := [], [];
    var listed := archive.List(d, Never);
    if listed.code != RarOk { return listed.code, [], []; }
    NonEmpty(d);
    var names := CollectNames(listed.entries);
    var colliding, _ := Detect(names, fold, nfc);
    if colliding { return ErrNotRar, [], []; }
    code, files, reports := ExtractEntries(archive, d, limits, state, decode, digest, cancel);
  }

  method CollectNames(entries: seq<Entry>) returns (names: seq<Item>)
    ensures names == Items(entries)
  {
    names := [];
    for i := 0 to |entries|
      invariant |names| == i && forall k :: 0 <= k < i ==> names[k] == Item(entries[k].path, entries[k].isDir)
    {
      names := names + [Item(entries[i].path, entries[i].isDir)];
    }
  }

  /** The listing inside extract_all is not cancelled. */
  function Never(k: nat): bool { false }

  lemma NonEmpty(d: Bytes)
    requires ListMem(d, Never).code == RarOk
    ensures |d| > 0
  {
    hide Walk, Signature.Search;
  }

  // ----- What success means

  /** One output per entry, in order: directories empty, files as their checks demand. */
  ghost predicate Matches(d: Bytes, files: seq<Extracted>, entries: seq<Entry>, digest: Digest) {
    && |files| == |entries|
    && forall i :: 0 <= i < |files| ==>
      && files[i].path == entries[i].path
      && (if entries[i].isDir then files[i].data == [] else Checked(d, entries[i], files[i].data, digest))
  }

  lemma {:induction false} SuccessMatches(d: Bytes, entries: seq<Entry>, i: nat, cumulative: nat, total: nat,
                                          limits: Option<Limits>, decode: Decoder, digest: Digest, cancel: nat -> bool)
    requires i <= |entries| && cumulative <= MAX_TOTAL_OUTPUT
    requires ExtractFrom(d, entries, i, cumulative, total, limits, decode, digest, cancel).code == RarOk
    ensures var r := ExtractFrom(d, entries, i, cumulative, total, limits, decode, digest, cancel);
      Matches(d, r.files, entries[i..], digest)
    decreases |entries| - i
  {
    hide ExtractEntry, Over, Charge, ExtractFrom, Matches, Checked;
    if i == |entries| {
      AtEnd(d, entries, cumulative, total, limits, decode, digest, cancel, []);
      MatchesNone(d, entries[i..], digest);
    } else {
      var e, r := entries[i], ExtractFrom(d, entries, i, cumulative, total, limits, decode, digest, cancel);
      assert [] + r.files == r.files;
      var x := ExtractEntry(d, e, limits, total, decode, digest);
      Unfold(d, entries, i, cumulative, total, limits, decode, digest, cancel, []);
      if e.isDir {
        SuccessMatches(d, entries, i + 1, cumulative, total, limits, decode, digest, cancel);
        MatchesCons(d, Extracted(e.path, []),
            ExtractFrom(d, entries, i + 1, cumulative, total, limits, decode, digest, cancel).files, entries, i,
            digest);
      } else {
        var (more, charged) := (cumulative + |x.out|, Charge(x, limits, total));
        GoodIsChecked(d, e, limits, total, decode, digest);
        SuccessMatches(d, entries, i + 1, more, charged, limits, decode, digest, cancel);
        MatchesCons(d, Extracted(e.path, x.out),
            ExtractFrom(d, entries, i + 1, more, charged, limits, decode, digest, cancel).files, entries, i,
            digest);
      }
    }
  }

  lemma MatchesNone(d: Bytes, none: seq<Entry>, digest: Digest)
    ensures none == [] ==> Matches(d, [], none, digest)
  {
  }

  lemma MatchesCons(d: Bytes, f: Extracted, files: seq<Extracted>, entries: seq<Entry>, i: nat, digest: Digest)
    requires i < |entries| && Matches(d, files, entries[i + 1..], digest) && f.path == entries[i].path
    requires if entries[i].isDir then f.data == [] else Checked(d, entries[i], f.data, digest)
    ensures Matches(d, [] + [f] + files, entries[i..], digest)
  {
    hide Checked;
    var all := [] + [f] + files;
    forall k | 0 <= k < |all| ensures all[k] == (if k == 0 then f else files[k - 1]) {}
    forall k | 0 < k < |all| ensures entries[i..][k] == entries[i + 1..][k - 1] {}
  }
}
