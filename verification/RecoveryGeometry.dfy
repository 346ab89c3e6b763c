/** calculate_params of src/recovery/recovery_record.cpp, and the limits of the sector layout. */
module RecoveryGeometry {
  import opened PowersOfTwo
  import opened ReedSolomon
  import opened ErasureCode
  import opened RecoveryRecord

  const DEFAULT_SECTOR_SIZE: nat := 512
  const MAX_SECTOR_SIZE: nat := 1048576
  const MAX_TOTAL_SECTORS: nat := 65530

  function Wrap64(n: nat): nat { n % TWO64 }

  /** Data sectors of size `sector`, in the source's 64-bit arithmetic. */
  function DataSectors(size: nat, sector: nat): nat
    requires sector > 0
  {
    var n := Wrap64(size + sector - 1) / sector;
    if n == 0 then 1 else n
  }

  function RecoverySectors(data: nat, percent: nat): nat {
    var n := Wrap64(data * percent + 99) / 100;
    if n == 0 then 1 else n
  }

  predicate Fits(size: nat, percent: nat, sector: nat)
    requires sector > 0
  {
    Wrap64(DataSectors(size, sector) + RecoverySectors(DataSectors(size, sector), percent)) <= MAX_TOTAL_SECTORS
  }

  /** 512 * 2^k */
  function SectorStep(k: nat): (s: nat)
    ensures s > 0 && s % 2 == 0
  {
    if k == 0 then DEFAULT_SECTOR_SIZE else 2 * SectorStep(k - 1)
  }

  /** The parameters of step k. */
  predicate StepChosen(size: nat, percent: nat, k: nat, p: RecoveryParams) {
    && k <= 11 && p.sectorSize == SectorStep(k) && Fits(size, percent, SectorStep(k))
    && p.protectedSize == size
    && p.dataSectors == DataSectors(size, p.sectorSize)
    && p.recoverySectors == RecoverySectors(p.dataSectors, percent)
  }

  ghost predicate NoneFits(size: nat, percent: nat, k: nat) {
    forall j: nat | j < k :: !Fits(size, percent, SectorStep(j))
  }

  lemma NoneFitsNext(size: nat, percent: nat, k: nat)
    requires NoneFits(size, percent, k) && !Fits(size, percent, SectorStep(k))
    ensures NoneFits(size, percent, k + 1)
  {
    hide Fits, SectorStep;
  }

  lemma SectorBound(k: nat)
    requires k <= 11
    ensures 512 <= SectorStep(k) <= MAX_SECTOR_SIZE && (SectorStep(k) >= MAX_SECTOR_SIZE <==> k == 11)
  {
    SectorSteps();
    if k > 0 { SectorStepGrows(0, k); }
  }

  // ----- what a chosen step guarantees

  lemma CeilingDivision(size: nat, sector: nat)
    requires sector > 0
    ensures var q := (size + sector - 1) / sector; q * sector <= size + sector - 1 < q * sector + sector
  {
    var q := (size + sector - 1) / sector;
    assert q * sector + (size + sector - 1) % sector == size + sector - 1;
  }

  /** Without wrap-around the sectors tile the protected range. */
  lemma CoversSize(size: nat, sector: nat)
    requires 0 < sector && size + sector - 1 < TWO64
    ensures var n := DataSectors(size, sector); 0 < n && (n - 1) * sector <= size <= n * sector
  {
    var q := (size + sector - 1) / sector;
    CeilingDivision(size, sector);
    assert Wrap64(size + sector - 1) == size + sector - 1;
    if q == 0 {
      assert size == 0;
    } else {
      assert q * sector == (q - 1) * sector + sector;
    }
  }

  /** With it, a single sector is left for the whole range. */
  lemma WrapsToOne(size: nat, sector: nat)
    requires 1 < sector <= MAX_SECTOR_SIZE && size < TWO64 <= size + sector - 1
    ensures DataSectors(size, sector) == 1
  {
    assert Wrap64(size + sector - 1) == size + sector - 1 - TWO64 < sector;
  }

  /** The recovery count is the percentage rounded up, at least one. */
  lemma RecoveryShare(data: nat, percent: nat)
    requires data * percent + 99 < TWO64
    ensures var n := RecoverySectors(data, percent);
      n >= 1 && data * percent <= 100 * n && (n > 1 ==> 100 * (n - 1) < data * percent)
  {
    var t := data * percent;
    assert Wrap64(t + 99) == t + 99;
    Hundredths(t);
  }

  lemma Hundredths(t: nat)
    ensures t <= 100 * ((t + 99) / 100) < t + 100
  {
  }

  /** Sectors of a size fit exactly when the two counts together are at most 65530. */
  lemma FitsExactly(size: nat, percent: nat, sector: nat)
    requires sector > 0
    requires DataSectors(size, sector) + RecoverySectors(DataSectors(size, sector), percent) < TWO64
    ensures Fits(size, percent, sector) <==>
      DataSectors(size, sector) + RecoverySectors(DataSectors(size, sector), percent) <= 65530
  {
    hide DataSectors, RecoverySectors;
  }

  /** Sector sizes run from 512 bytes by doubling to 1 MiB. */
  lemma SectorSizes(k: nat)
    ensures SectorStep(k) == 512 * Pow2(k) && SectorStep(11) == 1048576
  {
    SectorSteps();
    SectorDoubles(k);
  }

  lemma {:induction false} SectorDoubles(k: nat)
    ensures SectorStep(k) == 512 * Pow2(k)
  {
    if k > 0 { SectorDoubles(k - 1); }
  }

  lemma QuotientAtMost(n: nat, d: nat)
    requires d >= 100
    ensures n / d <= n / 100
  {
    var k := n / d;
    assert n == d * k + n % d;
    FactorAtMost(100, d, k);
  }

  lemma HundredthSmall(n: nat)
    requires n < TWO64
    ensures n / 100 < 0x300_0000_0000_0000
  {
  }

  /** The sum of the two counts stays in 64 bits, so a step that fits is representable. */
  lemma SumExact(size: nat, percent: nat, sector: nat)
    requires 512 <= sector && Fits(size, percent, sector)
    ensures var data := DataSectors(size, sector);
      0 < data && 0 < RecoverySectors(data, percent) && data + RecoverySectors(data, percent) <= MAX_TOTAL_SECTORS
  {
    var a, b := Wrap64(size + sector - 1), Wrap64(DataSectors(size, sector) * percent + 99);
    QuotientAtMost(a, sector);
    HundredthSmall(a);
    HundredthSmall(b);
  }

  /** Whatever the size and percentage, a chosen step has counts that the field can address. */
  lemma ChosenRepresentable(size: nat, percent: nat, k: nat, p: RecoveryParams)
    requires StepChosen(size, percent, k, p)
    ensures Representable(p.dataSectors, p.recoverySectors) && p.dataSectors + p.recoverySectors <= MAX_TOTAL_SECTORS
  {
    hide SectorStep, DataSectors, RecoverySectors, Fits;
    SectorBound(k);
    SumExact(size, percent, p.sectorSize);
  }

  /** A chosen step has the layout that repair relies on exactly when rounding the size up does not wrap. */
  lemma ChosenGeometry(size: nat, percent: nat, k: nat, p: RecoveryParams)
    requires size < TWO64 && StepChosen(size, percent, k, p)
    ensures Geometry(p) <==> size + p.sectorSize - 1 < TWO64
  {
    hide SectorStep, DataSectors, RecoverySectors, Fits;
    SectorBound(k);
    if size + p.sectorSize - 1 < TWO64 {
      CoversSize(size, p.sectorSize);
    } else {
      WrapsToOne(size, p.sectorSize);
    }
  }

  /** The largest size wraps: its first step is chosen with one 512-byte data sector. */
  lemma LargestSizeWraps(p: RecoveryParams)
    requires p == RecoveryParams(512, TWO64 - 1, 1, 1)
    ensures StepChosen(TWO64 - 1, 5, 0, p) && !Geometry(p)
  {
  }

  /** No buffer of a chosen step reaches the cap, so with chosen parameters only the parity that is left decides. */
  lemma ChosenWithinCap(size: nat, percent: nat, k: nat, p: RecoveryParams, valid: seq<bool>)
    requires StepChosen(size, percent, k, p) && |valid| == p.dataSectors + p.recoverySectors
    ensures Produces(p)
    ensures Repairable(p, valid) <==> |Missing(valid, p.dataSectors)| <= |Present(valid, p.dataSectors, |valid|)|
  {
    hide SectorStep, StepChosen, Missing, Present;
    ChosenRepresentable(size, percent, k, p);
    ChosenSector(size, percent, k, p);
    CapHolds(p, p.recoverySectors);
    AcceptedExactly(p.dataSectors, p.recoverySectors);
    var missing := |Missing(valid, p.dataSectors)|;
    MissingFacts(valid, p.dataSectors);
    PresentFacts(valid, p.dataSectors, |valid|);
    if 0 < missing <= |Present(valid, p.dataSectors, |valid|)| {
      CapHolds(p, missing);
      var place := Slot(p, valid, missing - 1);
      if place > 0 { CapHolds(p, place); }
    }
  }

  lemma ChosenSector(size: nat, percent: nat, k: nat, p: RecoveryParams)
    requires StepChosen(size, percent, k, p)
    ensures 0 < p.sectorSize <= MAX_SECTOR_SIZE
  {
    hide SectorStep, Fits, DataSectors, RecoverySectors;
    SectorBound(k);
  }

  lemma CapHolds(p: RecoveryParams, count: nat)
    requires 0 < p.sectorSize <= MAX_SECTOR_SIZE && 0 < count <= MAX_TOTAL_SECTORS
    ensures BufferFits(count, p.sectorSize)
  {
    FactorAtMost(count, MAX_TOTAL_SECTORS, p.sectorSize);
    FactorAtMost(p.sectorSize, MAX_SECTOR_SIZE, MAX_TOTAL_SECTORS);
    BufferFitsExactly(count, p.sectorSize);
    assert count * p.sectorSize >= 1;
  }

  /** The smallest doubling of the sector size that keeps the total addressable, or failure at the largest. */
  method CalculateParams(size: nat, percent: nat) returns (p: RecoveryParams)
    requires size < TWO64 && percent < TWO32
    ensures p.protectedSize == size
    ensures p.dataSectors == 0 ==> p.recoverySectors == 0 && NoneFits(size, percent, 12)
    ensures p.dataSectors > 0 ==> exists k: nat :: NoneFits(size, percent, k) && StepChosen(size, percent, k, p)
    ensures p.dataSectors > 0 ==>
      Representable(p.dataSectors, p.recoverySectors) && (Geometry(p) <==> size + p.sectorSize - 1 < TWO64)
  {
    hide DataSectors, RecoverySectors, NoneFits, SectorStep, Geometry;
    var sector := DEFAULT_SECTOR_SIZE;
    ghost var k := 0;
    FirstStep(size, percent);
    while true
      invariant k <= 11 && sector == SectorStep(k) && sector > 0 && NoneFits(size, percent, k)
      decreases 11 - k
    {
      var data := DataSectors(size, sector);
      var rec := RecoverySectors(data, percent);
      if Wrap64(data + rec) <= MAX_TOTAL_SECTORS {
        p := RecoveryParams(sector, size, data, rec);
        ChosenRepresentable(size, percent, k, p);
        ChosenGeometry(size, percent, k, p);
        return;
      }
      NoneFitsNext(size, percent, k);
      SectorBound(k);
      if sector >= MAX_SECTOR_SIZE { break; }
      NextStep(k);
      sector := sector * 2;
      k := k + 1;
    }
    p := RecoveryParams(sector, size, 0, 0);
  }

  lemma FirstStep(size: nat, percent: nat)
    ensures SectorStep(0) == DEFAULT_SECTOR_SIZE && NoneFits(size, percent, 0)
  {
  }

  lemma NextStep(k: nat)
    ensures SectorStep(k + 1) == SectorStep(k) * 2
  {
  }

  lemma SectorSteps()
    ensures SectorStep(11) == MAX_SECTOR_SIZE
    ensures forall k: nat | k < 11 :: SectorStep(k) < MAX_SECTOR_SIZE
  {
    assert SectorStep(5) == 16384;
    assert SectorStep(8) == 131072;
    assert SectorStep(11) == MAX_SECTOR_SIZE;
    forall k: nat | k < 11 ensures SectorStep(k) < MAX_SECTOR_SIZE {
      SectorStepGrows(k, 11);
    }
  }

  lemma {:induction false} SectorStepGrows(j: nat, k: nat)
    requires j < k
    ensures SectorStep(j) < SectorStep(k)
  {
    if j + 1 < k { SectorStepGrows(j, k - 1); }
  }
}
