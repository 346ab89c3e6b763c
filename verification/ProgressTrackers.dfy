/** ProgressTracker of src/archive/buffer_archive.cpp. */
module ProgressTrackers {
  function Clamped(done: nat, d: nat, total: nat): nat {
    var low := if d > total then total else d;
    if low < done then done else low
  }

  /** A run of reports against one total: never past it, never falling back. */
  predicate Steady(reports: seq<(nat, nat)>, total: nat) {
    && (forall i :: 0 <= i < |reports| ==> reports[i].0 <= total && reports[i].1 == total)
    && (forall i, j :: 0 <= i < j < |reports| ==> reports[i].0 <= reports[j].0)
  }

  class ProgressTracker {
    var done: nat
    var reports: seq<(nat, nat)>

    constructor (ghost total: nat)
      ensures Valid(total) && done == 0 && reports == []
    {
      done, reports := 0, [];
    }

    /** The last report shows `done`, and all reports were made against `total`. */
    ghost predicate Valid(total: nat)
      reads this
    {
      && Steady(reports, total) && done <= total
      && (if reports == [] then done == 0 else reports[|reports| - 1].0 == done)
    }

    method Set(d: nat, total: nat)
      requires Valid(total)
      modifies this
      ensures Valid(total) && Steady(reports, total)
      ensures done == Clamped(old(done), d, total) && reports == old(reports) + [(done, total)]
    {
      var low := if d > total then total else d;
      if low < done { low := done; }
      assert forall i :: 0 <= i < |reports| ==> reports[i].0 <= reports[|reports| - 1].0;
      done := low;
      reports := reports + [(done, total)];
    }
  }
}
