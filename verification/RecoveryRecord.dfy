/** RecoveryManager of src/recovery/recovery_record.cpp: parity generation and repair of damaged sectors. */
module RecoveryRecord {
  import opened Gf16
  import opened Gf16Field
  import opened Gf16Sums
  import opened GfTables
  import opened SquareInverse
  import opened ErasureCode
  import opened ReedSolomon
  import opened EccUpdate
  import opened Options
  import opened PowersOfTwo

  datatype RecoveryParams = RecoveryParams(sectorSize: nat, protectedSize: nat, dataSectors: nat, recoverySectors: nat)

  /** The widths of the source's fields. */
  predicate InWidth(p: RecoveryParams) {
    p.sectorSize < TWO32 && p.dataSectors < TWO32 && p.recoverySectors < TWO32 && p.protectedSize < TWO64
  }

  const MAX_PARITY_BUFFER_CAP: nat := 64 * 1024 * 1024 * 1024

  /** calculate_parity_buffer_size gives a size. */
  predicate BufferFits(count: nat, unit: nat) { 0 < count && 0 < unit && count <= MAX_PARITY_BUFFER_CAP / unit }

  lemma BufferFitsExactly(count: nat, unit: nat)
    ensures BufferFits(count, unit) <==> 0 < count * unit <= 68719476736
  {
    if count > 0 && unit > 0 {
      var q := MAX_PARITY_BUFFER_CAP / unit;
      assert q * unit <= MAX_PARITY_BUFFER_CAP < q * unit + unit;
      if count <= q { FactorAtMost(count, q, unit); } else { FactorAtMost(q + 1, count, unit); }
    }
  }

  lemma FactorAtMost(a: nat, b: nat, c: nat)
    requires a <= b
    ensures a * c <= b * c
  {
  }

  // ----- sectors of the protected range

  /** Sector `d`, zero-padded past the end of the protected bytes. */
  function Sector(bytes: seq<bv8>, size: nat, d: nat): (s: Block)
    ensures |s| == size
  {
    var offset := d * size;
    if offset + size <= |bytes| then bytes[offset..offset + size]
    else if offset < |bytes| then bytes[offset..] + Clear(offset + size - |bytes|)
    else Clear(size)
  }

  /** The w-th word of every block. */
  ghost function Slice(blocks: seq<Block>, w: nat): Vector {
    (d: nat) => if d < |blocks| then WordAt(blocks[d], w) else ZERO
  }

  /** The w-th word of every sector. */
  ghost function SectorWords(bytes: seq<bv8>, size: nat, w: nat): Vector {
    (d: nat) => WordAt(Sector(bytes, size, d), w)
  }

  /** `block` is the parity sector that slot `s` holds for these bytes. */
  ghost predicate IsParitySector(bytes: seq<bv8>, size: nat, nd: nat, s: nat, block: Block) {
    && |block| == size
    && forall w: nat | 2 * w + 1 < size :: WordAt(block, w) == ParityUnit(nd, s, SectorWords(bytes, size, w))
  }

  // ----- the double loop of update_ecc calls

  ghost predicate Blocks(blocks: seq<Block>, n: nat, size: nat) {
    |blocks| == n && forall d: nat | d < n :: |blocks[d]| == size
  }

  /** The first `n` blocks are folded into row `e`. */
  ghost predicate RowFolded(mx: Matrix, n: nat, e: nat, blocks: seq<Block>, out: Block) {
    forall w: nat | 2 * w + 1 < |out| :: WordAt(out, w) == RowDot(mx, n, e, Slice(blocks, w))
  }

  lemma FoldExtendsRow(mx: Matrix, d: nat, e: nat, blocks: seq<Block>, size: nat, before: Block, after: Block)
    requires d < |blocks| && |blocks[d]| == size == |before| && e < |mx| && d < |mx[e]|
    requires d > 0 ==> RowFolded(mx, d, e, blocks, before)
    requires Folded(mx[e][d], d == 0, blocks[d], before, after)
    ensures |after| == size && RowFolded(mx, d + 1, e, blocks, after)
  {
    hide Add, Mul, WordAt, TailByte;
    forall w: nat | 2 * w + 1 < |after| ensures WordAt(after, w) == RowDot(mx, d + 1, e, Slice(blocks, w)) {
      RowDotUnfold(mx, d, e, Slice(blocks, w));
    }
  }

  lemma RowDotUnfold(m: Matrix, n: nat, i: nat, x: Vector)
    ensures RowDot(m, 0, i, x) == ZERO
    ensures RowDot(m, n + 1, i, x) == Add(RowDot(m, n, i, x), Mul(At(m, i, n), x(n)))
  {
    hide Add, Mul, At;
    SumUnfold(n, (j: nat) => Mul(At(m, i, j), x(j)));
  }

  /** Folds every block into every row: out[e] is row e of `mx` times the column of blocks. */
  method FoldAll(field: GfField, mx: Matrix, rows: nat, nd: nat, blocks: seq<Block>,
      size: nat) returns (out: seq<Block>)
    requires field.Valid() && Rectangular(mx, rows, nd) && Blocks(blocks, nd, size) && nd > 0
    ensures Blocks(out, rows, size)
    ensures forall e: nat | e < rows :: RowFolded(mx, nd, e, blocks, out[e])
  {
    hide RowFolded, Folded;
    out := seq(rows, _ => Clear(size));
    var d := 0;
    while d < nd
      invariant 0 <= d <= nd && Blocks(out, rows, size)
      invariant d > 0 ==> forall e: nat | e < rows :: RowFolded(mx, d, e, blocks, out[e])
    {
      ghost var before := out;
      var e := 0;
      while e < rows
        invariant 0 <= e <= rows && Blocks(out, rows, size)
        invariant forall q: nat | q < e :: RowFolded(mx, d + 1, q, blocks, out[q])
        invariant forall q: nat | e <= q < rows :: out[q] == before[q]
      {
        var updated := UpdateEcc(field, mx[e][d], d == 0, blocks[d], out[e]);
        FoldExtendsRow(mx, d, e, blocks, size, out[e], updated);
        out := out[e := updated];
        e := e + 1;
      }
      d := d + 1;
    }
  }

  // ----- generate_parity

  method CollectSectors(bytes: seq<bv8>, size: nat, nd: nat) returns (blocks: seq<Block>)
    ensures Blocks(blocks, nd, size) && forall d: nat | d < nd :: blocks[d] == Sector(bytes, size, d)
  {
    hide Sector;
    blocks := [];
    var d := 0;
    while d < nd
      invariant 0 <= d <= nd && Blocks(blocks, d, size)
      invariant forall c: nat | c < d :: blocks[c] == Sector(bytes, size, c)
    {
      blocks := blocks + [Sector(bytes, size, d)];
      d := d + 1;
    }
  }

  lemma GeneratorRowIsParity(mx: Matrix, nd: nat, nr: nat, r: nat, bytes: seq<bv8>, size: nat, blocks: seq<Block>,
      out: Block)
    requires IsGenerator(mx, nd, nr) && r < nr && |out| == size
    requires Blocks(blocks, nd, size) && forall d: nat | d < nd :: blocks[d] == Sector(bytes, size, d)
    requires RowFolded(mx, nd, r, blocks, out)
    ensures IsParitySector(bytes, size, nd, nd + r, out)
  {
    hide Add, Mul, Sum, Weight, Sector, WordAt;
    forall w: nat | 2 * w + 1 < size
      ensures WordAt(out, w) == ParityUnit(nd, nd + r, SectorWords(bytes, size, w))
    {
      var f := (j: nat) => Mul(At(mx, r, j), Slice(blocks, w)(j));
      var g := (d: nat) => Mul(Weight(nd + r, d), SectorWords(bytes, size, w)(d));
      forall d: nat | d < nd ensures f(d) == g(d) {
        assert At(mx, r, d) == mx[r][d] == Weight(nd + r, d);
        assert Slice(blocks, w)(d) == SectorWords(bytes, size, w)(d);
      }
      SumEqual(nd, f, g);
    }
  }

  /** generate_parity gives up without output. */
  predicate Produces(p: RecoveryParams) {
    BufferFits(p.recoverySectors, p.sectorSize) && Accepted(p.dataSectors, p.recoverySectors)
  }

  /** generate_parity: sectors of Cauchy parity, unless the counts or the buffer are refused; counts whose sum wraps
      are not refused. */
  method GenerateParity(bytes: seq<bv8>, params: RecoveryParams) returns (parity: seq<Block>)
    requires InWidth(params) && |bytes| == params.protectedSize
    ensures !Produces(params) ==> parity == []
    ensures Produces(params) ==> Blocks(parity, params.recoverySectors, params.sectorSize)
    ensures Produces(params) && params.dataSectors + params.recoverySectors < TWO32 ==>
      forall r: nat | r < |parity| ::
        IsParitySector(bytes, params.sectorSize, params.dataSectors, params.dataSectors + r, parity[r])
  {
    hide IsParitySector, RowFolded, Sector, Weight, ParityWeight;
    if params.dataSectors == 0 || params.recoverySectors == 0 { return []; }
    if !BufferFits(params.recoverySectors, params.sectorSize) { return []; }
    var rs := new ReedSolomon16();
    var ok := rs.Init(params.dataSectors, params.recoverySectors, None);
    if !ok { return []; }
    var blocks := CollectSectors(bytes, params.sectorSize, params.dataSectors);
    parity := FoldAll(rs.field, rs.mx, params.recoverySectors, params.dataSectors, blocks, params.sectorSize);
    if params.dataSectors + params.recoverySectors < TWO32 {
      forall r: nat | r < |parity|
        ensures IsParitySector(bytes, params.sectorSize, params.dataSectors, params.dataSectors + r, parity[r])
      {
        GeneratorRowIsParity(rs.mx, params.dataSectors, params.recoverySectors, r, bytes, params.sectorSize, blocks,
            parity[r]);
      }
    }
  }

  // ----- repair_data: the working sectors

  /** The valid sectors are those of `original`, the valid parity sectors are its parity; the others are arbitrary. */
  ghost predicate Damaged(original: seq<bv8>, current: seq<bv8>, parity: seq<Block>, p: RecoveryParams,
      valid: seq<bool>) {
    var size, nd := p.sectorSize, p.dataSectors;
    && |original| == |current| == p.protectedSize
    && |valid| == nd + p.recoverySectors && Blocks(parity, p.recoverySectors, size)
    && (forall d: nat | d < nd && valid[d] :: Sector(current, size, d) == Sector(original, size, d))
    && (forall r: nat | r < p.recoverySectors && valid[nd + r] :: IsParitySector(original, size, nd, nd + r, parity[r]))
  }

  /** Sector d lies wholly inside the protected range. */
  predicate Whole(p: RecoveryParams, d: nat) { d * p.sectorSize + p.sectorSize <= p.protectedSize }

  /** The last of the first n slots that is valid and reaches past the protected range. */
  function LastPartial(p: RecoveryParams, valid: seq<bool>, n: nat): nat
    requires n <= |valid|
  {
    if n == 0 then 0 else if valid[n - 1] && !Whole(p, n - 1) then n - 1 else LastPartial(p, valid, n - 1)
  }

  /** What the repair works with in valid slot d: all slots that reach past the range share one buffer, which the
      last of them fills. */
  function HeldBlock(current: seq<bv8>, p: RecoveryParams, valid: seq<bool>, d: nat): Block
    requires p.dataSectors <= |valid|
  {
    Sector(current, p.sectorSize, if Whole(p, d) then d else LastPartial(p, valid, p.dataSectors))
  }

  /** The parity sectors that stand in for the missing sectors of the first n slots. */
  ghost predicate StandIns(parity: seq<Block>, nd: nat, valid: seq<bool>, n: nat, proc: seq<Block>)
    requires n <= nd <= |valid| == nd + |parity|
  {
    && |proc| == n && |Missing(valid, n)| <= |Present(valid, nd, |valid|)|
    && (forall k: nat | k < |Missing(valid, n)| ::
          nd <= Present(valid, nd, |valid|)[k] < |valid| && Missing(valid, n)[k] < n &&
          proc[Missing(valid, n)[k]] == parity[Present(valid, nd, |valid|)[k] - nd])
  }

  /** Healthy slots take what the repair holds for them, missing ones the next valid parity sector. */
  ghost predicate Mapped(current: seq<bv8>, parity: seq<Block>, p: RecoveryParams, valid: seq<bool>, proc: seq<Block>)
    requires |valid| == p.dataSectors + |parity|
  {
    && Blocks(proc, p.dataSectors, p.sectorSize)
    && StandIns(parity, p.dataSectors, valid, p.dataSectors, proc)
    && (forall d: nat | d < p.dataSectors && valid[d] :: proc[d] == HeldBlock(current, p, valid, d))
  }

  /** The parity sector at the given place can be addressed. */
  predicate Reachable(p: RecoveryParams, place: nat) { place == 0 || BufferFits(place, p.sectorSize) }

  lemma ReachableBelow(p: RecoveryParams, a: nat, b: nat)
    requires a <= b && Reachable(p, b)
    ensures Reachable(p, a)
  {
  }

  /** All stand-ins for the first n slots are reachable. */
  ghost predicate AllReachable(p: RecoveryParams, valid: seq<bool>, n: nat)
    requires n <= p.dataSectors <= |valid| && |Missing(valid, n)| <= |Present(valid, p.dataSectors, |valid|)|
  {
    forall k: nat | k < |Missing(valid, n)| :: Reachable(p, Slot(p, valid, k))
  }

  /** The place among the parity sectors of the k-th valid one. */
  function Slot(p: RecoveryParams, valid: seq<bool>, k: nat): nat
    requires p.dataSectors <= |valid| && k < |Present(valid, p.dataSectors, |valid|)|
  {
    PresentFacts(valid, p.dataSectors, |valid|);
    Present(valid, p.dataSectors, |valid|)[k] - p.dataSectors
  }

  /** The state of the mapping loop: own blocks, the slots that point at the shared buffer, and that buffer. */
  ghost predicate Mapping(current: seq<bv8>, p: RecoveryParams, valid: seq<bool>, n: nat,
                          direct: seq<Block>, shared: seq<bool>, buf: Block)
    requires n <= p.dataSectors <= |valid|
  {
    && Blocks(direct, n, p.sectorSize) && |shared| == n && |buf| == p.sectorSize
    && (forall d: nat | d < n :: shared[d] <==> valid[d] && !Whole(p, d))
    && (forall d: nat | d < n && valid[d] && Whole(p, d) :: direct[d] == Sector(current, p.sectorSize, d))
    && (forall d: nat | d < n && shared[d] :: buf == Sector(current, p.sectorSize, LastPartial(p, valid, n)))
  }

  lemma MappingNext(current: seq<bv8>, p: RecoveryParams, valid: seq<bool>, n: nat,
                    direct: seq<Block>, shared: seq<bool>, buf: Block, block: Block, buf': Block)
    requires n < p.dataSectors <= |valid| && Mapping(current, p, valid, n, direct, shared, buf)
    requires |block| == p.sectorSize
    requires valid[n] && Whole(p, n) ==> block == Sector(current, p.sectorSize, n)
    requires buf' == if valid[n] && !Whole(p, n) then Sector(current, p.sectorSize, n) else buf
    ensures Mapping(current, p, valid, n + 1, direct + [block], shared + [valid[n] && !Whole(p, n)], buf')
  {
    hide Sector, Whole;
  }

  lemma StandInsHealthy(parity: seq<Block>, nd: nat, valid: seq<bool>, i: nat, before: seq<Block>, block: Block)
    requires i < nd <= |valid| == nd + |parity| && StandIns(parity, nd, valid, i, before) && valid[i]
    ensures StandIns(parity, nd, valid, i + 1, before + [block])
    ensures Missing(valid, i + 1) == Missing(valid, i)
  {
  }

  lemma StandInsMissing(parity: seq<Block>, nd: nat, valid: seq<bool>, i: nat, next: nat, before: seq<Block>)
    requires i < nd <= next < |valid| == nd + |parity|
    requires StandIns(parity, nd, valid, i, before) && !valid[i] && valid[next]
    requires |Present(valid, nd, next)| == |Missing(valid, i)|
    ensures StandIns(parity, nd, valid, i + 1, before + [parity[next - nd]])
    ensures |Present(valid, nd, next + 1)| == |Missing(valid, i + 1)|
    ensures Missing(valid, i + 1) == Missing(valid, i) + [i]
    ensures |Missing(valid, i)| < |Present(valid, nd, |valid|)| &&
        Present(valid, nd, |valid|)[|Missing(valid, i)|] == next
  {
    var m := |Missing(valid, i)|;
    assert Missing(valid, i + 1) == Missing(valid, i) + [i];
    assert Present(valid, nd, next + 1) == Present(valid, nd, next) + [next];
    PresentPrefix(valid, nd, next + 1, |valid|);
    assert Present(valid, nd, |valid|)[m] == next;
    PresentFacts(valid, nd, |valid|);
    MissingFacts(valid, i);
  }

  /** The next valid parity slot for the missing sector i. */
  method NextPresent(valid: seq<bool>, nd: nat, i: nat, from: nat) returns (next: nat)
    requires i < nd <= from <= |valid| && !valid[i] && |Present(valid, nd, from)| == |Missing(valid, i)|
    requires |Missing(valid, nd)| <= |Present(valid, nd, |valid|)|
    ensures from <= next < |valid| && valid[next] && |Present(valid, nd, next)| == |Missing(valid, i)|
  {
    MissingMonotone(valid, i + 1, nd);
    next := from;
    while next < |valid| && !valid[next]
      invariant from <= next <= |valid| && |Present(valid, nd, next)| == |Missing(valid, i)|
    {
      next := next + 1;
    }
  }

  /** The mapping loop; it fails when a stand-in lies beyond the buffer cap. */
  method MapSectors(current: seq<bv8>, parity: seq<Block>, p: RecoveryParams, valid: seq<bool>) returns (ok: bool,
      proc: seq<Block>)
    requires |valid| == p.dataSectors + |parity| && Blocks(parity, |parity|, p.sectorSize)
    requires |Missing(valid, p.dataSectors)| <= |Present(valid, p.dataSectors, |valid|)|
    ensures ok <==> AllReachable(p, valid, p.dataSectors)
    ensures ok ==> Mapped(current, parity, p, valid, proc)
  {
    hide Sector, Whole, Mapping, StandIns, Missing, Present, Reachable, AllReachable;
    var nd := p.dataSectors;
    var direct, shared, buf := [], [], Clear(p.sectorSize);
    var next, i := nd, 0;
    MappingStart(current, parity, p, valid, buf);
    while i < nd
      invariant 0 <= i <= nd <= next <= |valid|
      invariant |Present(valid, nd, next)| == |Missing(valid, i)| <= |Missing(valid, nd)|
      invariant Mapping(current, p, valid, i, direct, shared, buf) && StandIns(parity, nd, valid, i, direct)
      invariant AllReachable(p, valid, i) && |direct| == |shared| == i
    {
      MissingWithin(valid, i, nd);
      ghost var before := buf;
      var block := buf;
      if valid[i] {
        if Whole(p, i) { block := Sector(current, p.sectorSize, i); } else { buf := Sector(current, p.sectorSize, i); }
        MappingSizes(current, p, valid, i, direct, shared, before);
        StandInsHealthy(parity, nd, valid, i, direct, block);
        ReachableHealthy(p, valid, i);
      } else {
        next := NextPresent(valid, nd, i, next);
        StandInsMissing(parity, nd, valid, i, next, direct);
        if !Reachable(p, next - nd) {
          OneUnreachable(p, valid, i);
          return false, [];
        }
        block := parity[next - nd];
        ReachableMissing(p, valid, i);
        next := next + 1;
      }
      MappingNext(current, p, valid, i, direct, shared, before, block, buf);
      direct, shared := direct + [block], shared + [valid[i] && !Whole(p, i)];
      i := i + 1;
    }
    ok, proc := true, Resolve(direct, shared, buf);
    MappingDone(current, parity, p, valid, direct, shared, buf);
  }

  /** The blocks that the slots point at once the loop is done. */
  function Resolve(direct: seq<Block>, shared: seq<bool>, buf: Block): seq<Block>
    requires |direct| == |shared|
  {
    seq(|direct|, d requires 0 <= d < |direct| => if shared[d] then buf else direct[d])
  }

  lemma MappingStart(current: seq<bv8>, parity: seq<Block>, p: RecoveryParams, valid: seq<bool>, buf: Block)
    requires |valid| == p.dataSectors + |parity| && |buf| == p.sectorSize
    ensures |Present(valid, p.dataSectors, p.dataSectors)| == |Missing(valid, 0)| == 0
    ensures Mapping(current, p, valid, 0, [], [], buf) && StandIns(parity, p.dataSectors, valid, 0, [])
    ensures AllReachable(p, valid, 0)
  {
  }

  lemma MissingWithin(valid: seq<bool>, i: nat, nd: nat)
    requires i < nd <= |valid|
    ensures |Missing(valid, i)| <= |Missing(valid, i + 1)| <= |Missing(valid, nd)|
  {
    MissingMonotone(valid, i + 1, nd);
  }

  lemma MappingSizes(current: seq<bv8>, p: RecoveryParams, valid: seq<bool>, n: nat, direct: seq<Block>,
      shared: seq<bool>, buf: Block)
    requires n <= p.dataSectors <= |valid| && Mapping(current, p, valid, n, direct, shared, buf)
    ensures |buf| == p.sectorSize
  {
  }

  lemma ReachableHealthy(p: RecoveryParams, valid: seq<bool>, i: nat)
    requires i < p.dataSectors <= |valid| && |Missing(valid, i)| <= |Present(valid, p.dataSectors, |valid|)|
    requires AllReachable(p, valid, i) && Missing(valid, i + 1) == Missing(valid, i)
    ensures AllReachable(p, valid, i + 1)
  {
  }

  lemma ReachableMissing(p: RecoveryParams, valid: seq<bool>, i: nat)
    requires i < p.dataSectors <= |valid| && |Missing(valid, i)| < |Present(valid, p.dataSectors, |valid|)|
    requires AllReachable(p, valid, i) && Missing(valid, i + 1) == Missing(valid, i) + [i]
    requires Reachable(p, Slot(p, valid, |Missing(valid, i)|))
    ensures AllReachable(p, valid, i + 1)
  {
    hide Missing, Present, Reachable;
  }

  lemma OneUnreachable(p: RecoveryParams, valid: seq<bool>, i: nat)
    requires i < p.dataSectors <= |valid| && |Missing(valid, p.dataSectors)| <= |Present(valid, p.dataSectors, |valid|)|
    requires |Missing(valid, i)| < |Missing(valid, p.dataSectors)| && !Reachable(p, Slot(p, valid, |Missing(valid, i)|))
    ensures !AllReachable(p, valid, p.dataSectors)
  {
    hide Missing, Present, Reachable;
  }

  lemma MappingDone(current: seq<bv8>, parity: seq<Block>, p: RecoveryParams, valid: seq<bool>,
                    direct: seq<Block>, shared: seq<bool>, buf: Block)
    requires |valid| == p.dataSectors + |parity| && |direct| == |shared|
    requires Mapping(current, p, valid, p.dataSectors, direct, shared, buf)
    requires StandIns(parity, p.dataSectors, valid, p.dataSectors, direct)
    ensures Mapped(current, parity, p, valid, Resolve(direct, shared, buf))
  {
    hide Sector, Whole, Present;
    MissingFacts(valid, p.dataSectors);
    hide Missing;
  }

  // ----- repair_data: reconstruction

  /** The shared buffer holds, for every valid slot that points at it, that slot's own sector. */
  ghost predicate Faithful(current: seq<bv8>, p: RecoveryParams, valid: seq<bool>)
    requires p.dataSectors <= |valid|
  {
    forall d: nat | d < p.dataSectors && valid[d] :: HeldBlock(current, p, valid, d) == Sector(current, p.sectorSize, d)
  }

  /** Blocks as the decoder expects them: sectors of the original where valid, parity where missing. */
  ghost predicate Working(original: seq<bv8>, parity: seq<Block>, p: RecoveryParams, valid: seq<bool>, work: seq<Block>)
    requires |valid| == p.dataSectors + |parity|
  {
    && StandIns(parity, p.dataSectors, valid, p.dataSectors, work)
    && (forall d: nat | d < p.dataSectors && valid[d] :: work[d] == Sector(original, p.sectorSize, d))
  }

  lemma WorkingWords(original: seq<bv8>, current: seq<bv8>, parity: seq<Block>, p: RecoveryParams, valid: seq<bool>,
                     work: seq<Block>, w: nat)
    requires Damaged(original, current, parity, p, valid) && Working(original, parity, p, valid, work)
    requires 2 * w + 1 < p.sectorSize
    ensures WorkingSlots(p.dataSectors, valid, Substitutes(valid, p.dataSectors),
                         SectorWords(original, p.sectorSize, w), Slice(work, w))
  {
    hide Sector, WordAt, ParityUnit, Missing, Present;
    var nd := p.dataSectors;
    PresentFacts(valid, nd, |valid|);
    forall r: nat | r < |Substitutes(valid, nd)| && r < |Missing(valid, nd)|
      ensures Slice(work, w)(Missing(valid, nd)[r]) ==
          ParityUnit(nd, Substitutes(valid, nd)[r], SectorWords(original, p.sectorSize, w))
    {
      var s := Substitutes(valid, nd)[r];
      assert s == Present(valid, nd, |valid|)[r];
      assert valid[nd + (s - nd)];
      assert IsParitySector(original, p.sectorSize, nd, s, parity[s - nd]);
    }
  }

  /** Row e over working blocks gives the words of the e-th missing sector. */
  lemma WordRecovered(original: seq<bv8>, current: seq<bv8>, parity: seq<Block>, p: RecoveryParams, valid: seq<bool>,
                      work: seq<Block>, mx: Matrix, e: nat, w: nat)
    requires Damaged(original, current, parity, p, valid) && Working(original, parity, p, valid, work)
    requires p.dataSectors <= |valid| && e < |Missing(valid, p.dataSectors)| && 2 * w + 1 < p.sectorSize
    requires Recovers(mx, p.dataSectors, valid, Substitutes(valid, p.dataSectors))
    ensures RowDot(mx, p.dataSectors, e, Slice(work, w))
      == WordAt(Sector(original, p.sectorSize, Missing(valid, p.dataSectors)[e]), w)
  {
    hide Sector, WordAt, Missing, Present, Working, WorkingSlots, RowDot, Substitutes, IsParitySector, Damaged;
    WorkingWords(original, current, parity, p, valid, work, w);
    assert SectorWords(original, p.sectorSize, w)(Missing(valid, p.dataSectors)[e])
      == WordAt(Sector(original, p.sectorSize, Missing(valid, p.dataSectors)[e]), w);
  }

  lemma FaithfulIsWorking(original: seq<bv8>, current: seq<bv8>, parity: seq<Block>, p: RecoveryParams,
      valid: seq<bool>, proc: seq<Block>)
    requires Damaged(original, current, parity, p, valid) && Mapped(current, parity, p, valid, proc) &&
        Faithful(current, p, valid)
    ensures Working(original, parity, p, valid, proc)
  {
    hide Sector, HeldBlock, StandIns, IsParitySector;
  }

  /** With an even sector size and a faithful buffer every missing sector is rebuilt. */
  lemma SectorRebuilt(original: seq<bv8>, current: seq<bv8>, parity: seq<Block>, p: RecoveryParams, valid: seq<bool>,
                      proc: seq<Block>, mx: Matrix, e: nat, out: Block)
    requires p.sectorSize % 2 == 0 && Damaged(original, current, parity, p, valid)
    requires p.dataSectors <= |valid| && Mapped(current, parity, p, valid, proc) && Faithful(current, p, valid)
    requires e < |Missing(valid, p.dataSectors)| && |out| == p.sectorSize
    requires Recovers(mx, p.dataSectors, valid, Substitutes(valid, p.dataSectors))
    requires RowFolded(mx, p.dataSectors, e, proc, out)
    ensures out == Sector(original, p.sectorSize, Missing(valid, p.dataSectors)[e])
  {
    hide Sector, WordAt, Missing, Damaged, Mapped, Faithful, Recovers, RowDot, Working;
    var sector := Sector(original, p.sectorSize, Missing(valid, p.dataSectors)[e]);
    FaithfulIsWorking(original, current, parity, p, valid, proc);
    forall w: nat | 2 * w + 1 < |out| ensures WordAt(out, w) == WordAt(sector, w) {
      WordRecovered(original, current, parity, p, valid, proc, mx, e, w);
    }
    WordsDetermine(out, sector);
  }

  /** A slot whose sector the shared buffer does not hold: it straddles the end, and a later valid slot lies past
      the end. */
  lemma UnfaithfulSlot(current: seq<bv8>, p: RecoveryParams, valid: seq<bool>) returns (d: nat)
    requires p.dataSectors <= |valid| && |current| == p.protectedSize && !Faithful(current, p, valid)
    ensures d < p.dataSectors && valid[d] && !Whole(p, d) && d * p.sectorSize < p.protectedSize
    ensures HeldBlock(current, p, valid, d) == Clear(p.sectorSize) != Sector(current, p.sectorSize, d)
    ensures forall c: nat | c < p.dataSectors && valid[c] && c != d ::
      HeldBlock(current, p, valid, c) == Sector(current, p.sectorSize, c)
  {
    d :| d < p.dataSectors && valid[d] && HeldBlock(current, p, valid, d) != Sector(current, p.sectorSize, d);
    var last := LastPartial(p, valid, p.dataSectors);
    LastPartialFacts(p, valid, p.dataSectors, d);
    PastEnd(current, p, d, last);
    forall c: nat | c < p.dataSectors && valid[c] && c != d
      ensures HeldBlock(current, p, valid, c) == Sector(current, p.sectorSize, c)
    {
      if c < d {
        Before(p, c, d);
      } else {
        PastEnd(current, p, d, c);
      }
    }
  }

  lemma {:induction false} LastPartialFacts(p: RecoveryParams, valid: seq<bool>, n: nat, d: nat)
    requires d < n <= |valid| && valid[d] && !Whole(p, d)
    ensures d <= LastPartial(p, valid, n) < n
  {
    hide Whole;
    if d < n - 1 && !(valid[n - 1] && !Whole(p, n - 1)) { LastPartialFacts(p, valid, n - 1, d); }
  }

  lemma PastEnd(current: seq<bv8>, p: RecoveryParams, d: nat, c: nat)
    requires |current| == p.protectedSize && !Whole(p, d)
    ensures d < c ==> c * p.sectorSize >= p.protectedSize && Sector(current, p.sectorSize, c) == Clear(p.sectorSize)
    ensures d * p.sectorSize >= p.protectedSize ==> Sector(current, p.sectorSize, d) == Clear(p.sectorSize)
  {
    if d < c {
      FactorAtMost(d + 1, c, p.sectorSize);
      assert (d + 1) * p.sectorSize == d * p.sectorSize + p.sectorSize;
    }
  }

  lemma Before(p: RecoveryParams, c: nat, d: nat)
    requires c < d && d * p.sectorSize < p.protectedSize
    ensures Whole(p, c)
  {
    FactorAtMost(c + 1, d, p.sectorSize);
    assert (c + 1) * p.sectorSize == c * p.sectorSize + p.sectorSize;
  }

  /** Changing one factor of a row whose coefficient there is not zero changes its value. */
  lemma RowDotDiffers(m: Matrix, n: nat, i: nat, x: Vector, y: Vector, d: nat)
    requires d < n && At(m, i, d) != ZERO && x(d) != y(d) && forall j: nat | j < n && j != d :: x(j) == y(j)
    ensures RowDot(m, n, i, x) != RowDot(m, n, i, y)
  {
    hide Add, Mul, Sum, At;
    var f, g := (j: nat) => Mul(At(m, i, j), x(j)), (j: nat) => Mul(At(m, i, j), y(j));
    var h := (j: nat) => Add(f(j), g(j));
    forall j: nat | j < n && j != d ensures h(j) == ZERO { AddSelf(f(j)); }
    SumAdd(n, f, g, h);
    SumSingle(n, h, d);
    AddEqualsZero(f(d), g(d));
    AddEqualsZero(Sum(n, f), Sum(n, g));
    if f(d) == g(d) { MulCancel(At(m, i, d), x(d), y(d)); }
  }

  lemma ClearedWord(a: Block)
    requires |a| % 2 == 0 && a != Clear(|a|)
    ensures exists w: nat :: 2 * w + 1 < |a| && WordAt(a, w) != ZERO
  {
    hide WordAt;
    if forall w: nat | 2 * w + 1 < |a| :: WordAt(a, w) == ZERO {
      forall w: nat | 2 * w + 1 < |a| ensures WordAt(a, w) == WordAt(Clear(|a|), w) { ClearWord(|a|, w); }
      WordsDetermine(a, Clear(|a|));
    }
  }

  /** An unfaithful buffer spoils every missing sector: each valid slot has a nonzero coefficient in each of them. */
  lemma SectorSpoiled(original: seq<bv8>, current: seq<bv8>, parity: seq<Block>, p: RecoveryParams, valid: seq<bool>,
                      proc: seq<Block>, mx: Matrix, e: nat, out: Block)
    requires p.sectorSize % 2 == 0 && Damaged(original, current, parity, p, valid)
    requires p.dataSectors <= |valid| && Mapped(current, parity, p, valid, proc) && !Faithful(current, p, valid)
    requires e < |Missing(valid, p.dataSectors)| && |out| == p.sectorSize
    requires Recovers(mx, p.dataSectors, valid, Substitutes(valid, p.dataSectors)) &&
        FullOnValid(mx, p.dataSectors, valid)
    requires RowFolded(mx, p.dataSectors, e, proc, out)
    ensures out != Sector(original, p.sectorSize, Missing(valid, p.dataSectors)[e])
  {
    hide Sector, WordAt, Missing, Recovers, RowDot, IsParitySector, Faithful, HeldBlock, Whole, Present;
    var nd, size := p.dataSectors, p.sectorSize;
    var d := UnfaithfulSlot(current, p, valid);
    var truth := Sector(current, size, d);
    var work := proc[d := truth];
    ClearedWord(truth);
    var w: nat :| 2 * w + 1 < |truth| && WordAt(truth, w) != ZERO;
    MissingFacts(valid, nd);
    RepairedSlot(original, current, parity, p, valid, proc, d);
    WordRecovered(original, current, parity, p, valid, work, mx, e, w);
    ClearWord(size, w);
    assert At(mx, e, d) != ZERO;
    forall j: nat | j < nd && j != d ensures Slice(proc, w)(j) == Slice(work, w)(j) {}
    RowDotDiffers(mx, nd, e, Slice(proc, w), Slice(work, w), d);
  }

  lemma RepairedSlot(original: seq<bv8>, current: seq<bv8>, parity: seq<Block>, p: RecoveryParams, valid: seq<bool>,
                     proc: seq<Block>, d: nat)
    requires Damaged(original, current, parity, p, valid) && Mapped(current, parity, p, valid, proc)
    requires d < p.dataSectors && valid[d]
    requires forall c: nat | c < p.dataSectors && valid[c] && c != d ::
      HeldBlock(current, p, valid, c) == Sector(current, p.sectorSize, c)
    ensures Working(original, parity, p, valid, proc[d := Sector(current, p.sectorSize, d)])
  {
    hide Sector, HeldBlock, Missing, Present, IsParitySector;
    var work := proc[d := Sector(current, p.sectorSize, d)];
    MissingFacts(valid, p.dataSectors);
  }

  // ----- repair_data: writing back

  /** Bytes of the protected range inside sector `i`. */
  function CopyLength(p: RecoveryParams, i: nat): nat {
    var offset := i * p.sectorSize;
    if offset + p.sectorSize > p.protectedSize then
      if offset < p.protectedSize then p.protectedSize - offset else 0
    else p.sectorSize
  }

  lemma CopyFits(p: RecoveryParams, i: nat)
    ensures CopyLength(p, i) <= p.sectorSize
    ensures CopyLength(p, i) > 0 ==> i * p.sectorSize + CopyLength(p, i) <= p.protectedSize
  {
  }

  /** `now` is `before` with `length` bytes of `block` copied to `offset`. */
  ghost predicate Copied(before: seq<bv8>, now: seq<bv8>, offset: nat, length: nat, block: Block) {
    && |now| == |before| && length <= |block|
    && forall q: nat | q < |now| :: now[q] == if offset <= q < offset + length then block[q - offset] else before[q]
  }

  method CopyBytes(a: array<bv8>, offset: nat, length: nat, block: Block)
    requires length <= |block| && (length > 0 ==> offset + length <= a.Length)
    modifies a
    ensures Copied(old(a[..]), a[..], offset, length, block)
  {
    var b := 0;
    while b < length
      invariant 0 <= b <= length
      invariant forall q: nat | q < a.Length :: a[q] == if offset <= q < offset + b then block[q - offset]
        else old(a[..])[q]
    {
      a[offset + b] := block[b];
      b := b + 1;
    }
  }

  lemma {:induction false} MissingNext(valid: seq<bool>, i: nat, n: nat)
    requires i < n <= |valid| && !valid[i]
    ensures |Missing(valid, i)| < |Missing(valid, n)| && Missing(valid, n)[|Missing(valid, i)|] == i
  {
    MissingMonotone(valid, i + 1, n);
    assert Missing(valid, i + 1) == Missing(valid, i) + [i];
  }

  /** The byte that a finished repair leaves at q: from the rebuilt sector when q lies in a missing one. */
  function PatchedByte(current: seq<bv8>, p: RecoveryParams, valid: seq<bool>, rebuilt: seq<Block>, q: nat): bv8
    requires q < |current| && 0 < p.sectorSize && p.dataSectors <= |valid|
    requires Blocks(rebuilt, |Missing(valid, p.dataSectors)|, p.sectorSize)
  {
    var i := q / p.sectorSize;
    if i < p.dataSectors && !valid[i] then
      MissingNext(valid, i, p.dataSectors);
      rebuilt[|Missing(valid, i)|][q % p.sectorSize]
    else current[q]
  }

  /** The first `end` bytes are patched, the rest is as before. */
  ghost predicate PatchedUpTo(current: seq<bv8>, p: RecoveryParams, valid: seq<bool>, rebuilt: seq<Block>, end: nat,
      now: seq<bv8>)
    requires 0 < p.sectorSize && p.dataSectors <= |valid|
    requires Blocks(rebuilt, |Missing(valid, p.dataSectors)|, p.sectorSize)
  {
    && |now| == |current|
    && forall q: nat | q < |now| :: now[q] == if q < end then PatchedByte(current, p, valid, rebuilt, q) else current[q]
  }

  lemma InSector(i: nat, size: nat, q: nat)
    requires size > 0 && i * size <= q < i * size + size
    ensures q / size == i && q % size == q - i * size
  {
    var k := q / size;
    assert q == k * size + q % size;
    assert (k + 1) * size == k * size + size && (i + 1) * size == i * size + size;
    if k < i { FactorAtMost(k + 1, i, size); }
    if i < k { FactorAtMost(i + 1, k, size); }
  }

  /** The patched bytes of one sector. */
  lemma PatchedIn(current: seq<bv8>, p: RecoveryParams, valid: seq<bool>, rebuilt: seq<Block>, i: nat, q: nat)
    requires q < |current| && 0 < p.sectorSize && i < p.dataSectors <= |valid|
    requires Blocks(rebuilt, |Missing(valid, p.dataSectors)|, p.sectorSize)
    requires i * p.sectorSize <= q < i * p.sectorSize + p.sectorSize
    ensures valid[i] ==> PatchedByte(current, p, valid, rebuilt, q) == current[q]
    ensures !valid[i] ==>
      && |Missing(valid, i)| < |rebuilt|
      && PatchedByte(current, p, valid, rebuilt, q) == rebuilt[|Missing(valid, i)|][q - i * p.sectorSize]
  {
    hide Missing;
    InSector(i, p.sectorSize, q);
    if !valid[i] { MissingNext(valid, i, p.dataSectors); }
  }

  lemma CopyReaches(p: RecoveryParams, i: nat, q: nat)
    requires q < p.protectedSize
    ensures i * p.sectorSize <= q < i * p.sectorSize + CopyLength(p, i) <==>
      i * p.sectorSize <= q < i * p.sectorSize + p.sectorSize
  {
  }

  lemma PatchSector(current: seq<bv8>, p: RecoveryParams, valid: seq<bool>, rebuilt: seq<Block>, i: nat,
      before: seq<bv8>, now: seq<bv8>)
    requires 0 < p.sectorSize && i < p.dataSectors <= |valid| && |current| == p.protectedSize
    requires Blocks(rebuilt, |Missing(valid, p.dataSectors)|, p.sectorSize)
    requires PatchedUpTo(current, p, valid, rebuilt, i * p.sectorSize, before)
    requires valid[i] ==> now == before
    requires !valid[i] ==>
      && |Missing(valid, i)| < |rebuilt|
      && Copied(before, now, i * p.sectorSize, CopyLength(p, i), rebuilt[|Missing(valid, i)|])
    ensures PatchedUpTo(current, p, valid, rebuilt, (i + 1) * p.sectorSize, now)
  {
    hide Missing, PatchedByte, CopyLength;
    var start := i * p.sectorSize;
    assert (i + 1) * p.sectorSize == start + p.sectorSize;
    forall q: nat | q < |now|
      ensures now[q] == if q < start + p.sectorSize then PatchedByte(current, p, valid, rebuilt, q) else current[q]
    {
      CopyReaches(p, i, q);
      if start <= q < start + p.sectorSize { PatchedIn(current, p, valid, rebuilt, i, q); }
    }
  }

  /** The write-back loop patches the whole range. */
  method WriteBack(protected: array<bv8>, p: RecoveryParams, valid: seq<bool>, rebuilt: seq<Block>)
    requires 0 < p.sectorSize && p.dataSectors <= |valid| && protected.Length == p.protectedSize
    requires Blocks(rebuilt, |Missing(valid, p.dataSectors)|, p.sectorSize)
    modifies protected
    ensures PatchedUpTo(old(protected[..]), p, valid, rebuilt, p.dataSectors * p.sectorSize, protected[..])
  {
    hide PatchedUpTo, Copied, CopyLength, Missing;
    ghost var current := protected[..];
    var missing := 0;
    var i := 0;
    PatchStart(current, p, valid, rebuilt);
    while i < p.dataSectors
      invariant 0 <= i <= p.dataSectors && missing == |Missing(valid, i)|
      invariant PatchedUpTo(current, p, valid, rebuilt, i * p.sectorSize, protected[..])
    {
      ghost var before := protected[..];
      MissingCount(valid, i);
      if !valid[i] {
        MissingNext(valid, i, p.dataSectors);
        CopyFits(p, i);
        CopyBytes(protected, i * p.sectorSize, CopyLength(p, i), rebuilt[missing]);
        missing := missing + 1;
      }
      PatchSector(current, p, valid, rebuilt, i, before, protected[..]);
      i := i + 1;
    }
  }

  lemma PatchStart(current: seq<bv8>, p: RecoveryParams, valid: seq<bool>, rebuilt: seq<Block>)
    requires 0 < p.sectorSize && p.dataSectors <= |valid|
    requires Blocks(rebuilt, |Missing(valid, p.dataSectors)|, p.sectorSize)
    ensures PatchedUpTo(current, p, valid, rebuilt, 0 * p.sectorSize, current) && |Missing(valid, 0)| == 0
  {
    hide PatchedByte;
  }

  lemma MissingCount(valid: seq<bool>, i: nat)
    requires i < |valid|
    ensures |Missing(valid, i + 1)| == |Missing(valid, i)| + if valid[i] then 0 else 1
  {
  }

  // ----- repair_data: what it achieves

  /** The first `end` bytes are the original ones, the rest is as it was. */
  ghost predicate RestoredUpTo(original: seq<bv8>, current: seq<bv8>, now: seq<bv8>, end: nat) {
    && |original| == |current| == |now|
    && (forall q: nat | q < end && q < |now| :: now[q] == original[q])
    && (forall q: nat | end <= q < |now| :: now[q] == current[q])
  }

  /** Every missing sector lies past the protected range. */
  ghost predicate Harmless(p: RecoveryParams, valid: seq<bool>)
    requires p.dataSectors <= |valid|
  {
    forall d: nat | d < p.dataSectors && !valid[d] :: d * p.sectorSize >= p.protectedSize
  }

  lemma SectorByte(bytes: seq<bv8>, size: nat, i: nat, q: nat)
    requires i * size <= q < i * size + size && q < |bytes|
    ensures Sector(bytes, size, i)[q - i * size] == bytes[q]
  {
  }

  lemma SectorOf(q: nat, size: nat, n: nat)
    requires size > 0 && q < n * size
    ensures q / size < n && q / size * size <= q < q / size * size + size
  {
    if q / size >= n { FactorAtMost(n, q / size, size); }
  }

  lemma PatchRestores(original: seq<bv8>, current: seq<bv8>, parity: seq<Block>, p: RecoveryParams, valid: seq<bool>,
                      rebuilt: seq<Block>, now: seq<bv8>)
    requires 0 < p.sectorSize && Damaged(original, current, parity, p, valid)
    requires p.dataSectors <= |valid| && Blocks(rebuilt, |Missing(valid, p.dataSectors)|, p.sectorSize)
    requires PatchedUpTo(current, p, valid, rebuilt, p.dataSectors * p.sectorSize, now)
    requires Harmless(p, valid) || forall e: nat | e < |rebuilt| ::
      rebuilt[e] == Sector(original, p.sectorSize, Missing(valid, p.dataSectors)[e])
    ensures RestoredUpTo(original, current, now, p.dataSectors * p.sectorSize)
  {
    hide Missing, Sector, IsParitySector;
    var size, end := p.sectorSize, p.dataSectors * p.sectorSize;
    forall q: nat | q < end && q < |now| ensures now[q] == original[q] {
      var i := q / size;
      SectorOf(q, size, p.dataSectors);
      InSector(i, size, q);
      SectorByte(original, size, i, q);
      SectorByte(current, size, i, q);
      if !valid[i] {
        MissingNext(valid, i, p.dataSectors);
        assert rebuilt[|Missing(valid, i)|] == Sector(original, size, i);
      }
    }
  }

  lemma PatchSpoils(original: seq<bv8>, current: seq<bv8>, p: RecoveryParams, valid: seq<bool>, rebuilt: seq<Block>,
      now: seq<bv8>)
    requires 0 < p.sectorSize && p.dataSectors <= |valid| && |original| == |current| == p.protectedSize
    requires Blocks(rebuilt, |Missing(valid, p.dataSectors)|, p.sectorSize)
    requires PatchedUpTo(current, p, valid, rebuilt, p.dataSectors * p.sectorSize, now)
    requires !Harmless(p, valid) && !Faithful(current, p, valid)
    requires forall e: nat | e < |rebuilt| :: rebuilt[e] != Sector(original, p.sectorSize,
        Missing(valid, p.dataSectors)[e])
    ensures !RestoredUpTo(original, current, now, p.dataSectors * p.sectorSize)
  {
    hide Missing, Sector, Faithful, HeldBlock;
    var size, end := p.sectorSize, p.dataSectors * p.sectorSize;
    var d := UnfaithfulSlot(current, p, valid);
    var i: nat :| i < p.dataSectors && !valid[i] && i * size < p.protectedSize;
    if d < i { PastEnd(current, p, d, i); }
    Before(p, i, d);
    MissingNext(valid, i, p.dataSectors);
    var block, truth := rebuilt[|Missing(valid, i)|], Sector(original, size, i);
    var b: nat :| b < size && block[b] != truth[b];
    var q := i * size + b;
    InSector(i, size, q);
    SectorByte(original, size, i, q);
    FactorAtMost(i + 1, p.dataSectors, size);
    assert (i + 1) * size == i * size + size;
    assert now[q] == block[b] != original[q];
  }

  /** Without a missing sector there is nothing to restore. */
  lemma AllHealthy(original: seq<bv8>, current: seq<bv8>, parity: seq<Block>, p: RecoveryParams, valid: seq<bool>)
    requires Damaged(original, current, parity, p, valid) && forall d: nat | d < p.dataSectors :: valid[d]
    ensures RestoredUpTo(original, current, current, p.dataSectors * p.sectorSize)
  {
    hide Sector, IsParitySector;
    var size, end := p.sectorSize, p.dataSectors * p.sectorSize;
    forall q: nat | q < end && q < |current| ensures current[q] == original[q] {
      SectorOf(q, size, p.dataSectors);
      SectorByte(original, size, q / size, q);
      SectorByte(current, size, q / size, q);
    }
  }

  /** The sector layout that calculate_params produces: whole words, and only the last sector may be partial. */
  predicate Geometry(p: RecoveryParams) {
    && 0 < p.sectorSize && p.sectorSize % 2 == 0
    && 0 < p.dataSectors
    && (p.dataSectors - 1) * p.sectorSize <= p.protectedSize <= p.dataSectors * p.sectorSize
  }

  /** Three bytes in two-byte sectors, with a third slot past the end: that slot clears the buffer that holds the
      last byte, and sector 0 is rebuilt wrongly. */
  lemma SharedBufferOverwritten(p: RecoveryParams, valid: seq<bool>, current: seq<bv8>)
    requires p == RecoveryParams(2, 3, 3, 1) && valid == [false, true, true, true] && current == [0, 0, 1]
    ensures Repairable(p, valid) && !Faithful(current, p, valid) && !Harmless(p, valid)
  {
    assert Missing(valid, 1) == [0] && Missing(valid, 3) == [0];
    assert Present(valid, 3, 4) == [3];
    assert LastPartial(p, valid, 3) == 2;
    assert Sector(current, 2, 1)[0] == 1 && Sector(current, 2, 2)[0] == 0;
    assert HeldBlock(current, p, valid, 1) != Sector(current, 2, 1);
  }

  lemma GeometryIsFaithful(current: seq<bv8>, p: RecoveryParams, valid: seq<bool>)
    requires Geometry(p) && p.dataSectors <= |valid| && |current| == p.protectedSize
    ensures Faithful(current, p, valid)
  {
    if !Faithful(current, p, valid) {
      var d := UnfaithfulSlot(current, p, valid);
      LastPartialFacts(p, valid, p.dataSectors, d);
      assert (d + 1) * p.sectorSize == d * p.sectorSize + p.sectorSize;
      if d < p.dataSectors - 1 { FactorAtMost(d + 1, p.dataSectors - 1, p.sectorSize); }
      assert false;
    }
  }

  /** Enough valid parity for the damage, within the caps on buffers. */
  predicate Repairable(p: RecoveryParams, valid: seq<bool>) {
    && |valid| == p.dataSectors + p.recoverySectors
    && (Missing(valid, p.dataSectors) == [] ||
        (|Missing(valid, p.dataSectors)| <= |Present(valid, p.dataSectors, |valid|)| &&
         Representable(p.dataSectors, p.recoverySectors) && WithinCap(p, valid)))
  }

  /** The last parity sector needed and the rebuilt sectors stay within the buffer cap. */
  predicate WithinCap(p: RecoveryParams, valid: seq<bool>)
    requires p.dataSectors <= |valid| && 0 < |Missing(valid, p.dataSectors)| <= |Present(valid, p.dataSectors, |valid|)|
  {
    var missing := |Missing(valid, p.dataSectors)|;
    Reachable(p, Slot(p, valid, missing - 1)) && BufferFits(missing, p.sectorSize)
  }

  lemma LastReachable(p: RecoveryParams, valid: seq<bool>)
    requires p.dataSectors <= |valid| && 0 < |Missing(valid, p.dataSectors)| <= |Present(valid, p.dataSectors, |valid|)|
    ensures AllReachable(p, valid, p.dataSectors) <==> Reachable(p, Slot(p, valid, |Missing(valid, p.dataSectors)| - 1))
  {
    hide Missing, Present, Reachable;
    var last := |Missing(valid, p.dataSectors)| - 1;
    PresentFacts(valid, p.dataSectors, |valid|);
    if Reachable(p, Slot(p, valid, last)) {
      forall k: nat | k < |Missing(valid, p.dataSectors)| ensures Reachable(p, Slot(p, valid, k)) {
        ReachableBelow(p, Slot(p, valid, k), Slot(p, valid, last));
      }
    }
  }

  /** repair_data, for every layout: it succeeds exactly when enough valid parity remains within the caps; with an
      even sector size it then restores the covered bytes exactly when the shared buffer is faithful or no missing
      sector matters; with the layout of calculate_params it always restores everything. */
  method RepairData(protected: array<bv8>, parity: seq<Block>, p: RecoveryParams, valid: seq<bool>,
      ghost original: seq<bv8>)
    returns (ok: bool)
    requires InWidth(p) && protected.Length == p.protectedSize
    requires |valid| == p.dataSectors + p.recoverySectors ==> Damaged(original, protected[..], parity, p, valid)
    modifies protected
    ensures ok <==> Repairable(p, valid)
    ensures ok && p.sectorSize % 2 == 0 ==>
      (RestoredUpTo(original, old(protected[..]), protected[..], p.dataSectors * p.sectorSize) <==>
       Faithful(old(protected[..]), p, valid) || Harmless(p, valid))
    ensures ok && Geometry(p) ==> protected[..] == original
    ensures !ok ==> protected[..] == old(protected[..])
  {
    hide Sector, Recovers, RowFolded, IsParitySector, Mapped, RestoredUpTo, Faithful, Harmless, AllReachable,
         PatchedUpTo, FullOnValid, Slot, Geometry;
    if |valid| != p.dataSectors + p.recoverySectors { return false; }
    var nd := p.dataSectors;
    ghost var current := protected[..];
    var missing := CountMissing(valid, nd);
    if missing == 0 {
      NothingMissing(valid, nd);
      AllHealthy(original, protected[..], parity, p, valid);
      HarmlessNone(p, valid);
      GeometryRestored(original, current, protected[..], p);
      return true;
    }
    var validParity := CountPresent(valid, nd, Wrap32(nd + p.recoverySectors));
    WrappedIsShort(nd, p.recoverySectors, valid);
    if missing > validParity { return false; }
    var rs := new ReedSolomon16();
    ok := rs.Init(nd, p.recoverySectors, Some(valid));
    if !ok { return; }
    LastReachable(p, valid);
    var proc;
    ok, proc := MapSectors(protected[..], parity, p, valid);
    if !ok { return; }
    if !BufferFits(missing, p.sectorSize) { return false; }
    MappedBlocks(protected[..], parity, p, valid, proc);
    var rebuilt := FoldAll(rs.field, rs.mx, missing, nd, proc, p.sectorSize);
    WriteBack(protected, p, valid, rebuilt);
    if p.sectorSize % 2 == 0 {
      RepairOutcome(original, current, parity, p, valid, proc, rs.mx, rebuilt, protected[..]);
    }
    RestoredByGeometry(original, current, protected[..], p, valid);
  }

  /** What the rebuilt sectors amount to once written back. */
  lemma RepairOutcome(original: seq<bv8>, current: seq<bv8>, parity: seq<Block>, p: RecoveryParams, valid: seq<bool>,
                      proc: seq<Block>, mx: Matrix, rebuilt: seq<Block>, now: seq<bv8>)
    requires 0 < p.sectorSize && p.sectorSize % 2 == 0 && Damaged(original, current, parity, p, valid)
    requires p.dataSectors <= |valid| && Mapped(current, parity, p, valid, proc)
    requires Blocks(rebuilt, |Missing(valid, p.dataSectors)|, p.sectorSize)
    requires Recovers(mx, p.dataSectors, valid, Substitutes(valid, p.dataSectors)) &&
        FullOnValid(mx, p.dataSectors, valid)
    requires forall e: nat | e < |rebuilt| :: RowFolded(mx, p.dataSectors, e, proc, rebuilt[e])
    requires PatchedUpTo(current, p, valid, rebuilt, p.dataSectors * p.sectorSize, now)
    ensures RestoredUpTo(original, current, now, p.dataSectors * p.sectorSize) <==>
        Faithful(current, p, valid) || Harmless(p, valid)
  {
    hide Sector, Recovers, RowFolded, Mapped, RestoredUpTo, Faithful, Harmless, PatchedUpTo, FullOnValid, Missing,
         IsParitySector, Substitutes;
    if Faithful(current, p, valid) {
      forall e: nat | e < |rebuilt| ensures rebuilt[e] ==
        Sector(original, p.sectorSize, Missing(valid, p.dataSectors)[e]) {
        SectorRebuilt(original, current, parity, p, valid, proc, mx, e, rebuilt[e]);
      }
      PatchRestores(original, current, parity, p, valid, rebuilt, now);
    } else if Harmless(p, valid) {
      PatchRestores(original, current, parity, p, valid, rebuilt, now);
    } else {
      forall e: nat | e < |rebuilt| ensures rebuilt[e] != Sector(original, p.sectorSize,
        Missing(valid, p.dataSectors)[e]) {
        SectorSpoiled(original, current, parity, p, valid, proc, mx, e, rebuilt[e]);
      }
      PatchSpoils(original, current, p, valid, rebuilt, now);
    }
  }

  lemma GeometryRestored(original: seq<bv8>, current: seq<bv8>, now: seq<bv8>, p: RecoveryParams)
    requires |original| == p.protectedSize && RestoredUpTo(original, current, now, p.dataSectors * p.sectorSize)
    ensures Geometry(p) ==> now == original
  {
  }

  lemma RestoredByGeometry(original: seq<bv8>, current: seq<bv8>, now: seq<bv8>, p: RecoveryParams, valid: seq<bool>)
    requires p.dataSectors <= |valid| && |original| == |current| == p.protectedSize
    requires p.sectorSize % 2 == 0 ==>
      (RestoredUpTo(original, current, now, p.dataSectors * p.sectorSize) <==>
          Faithful(current, p, valid) || Harmless(p, valid))
    ensures Geometry(p) ==> now == original
  {
    hide RestoredUpTo, Faithful, Harmless;
    if Geometry(p) {
      GeometryIsFaithful(current, p, valid);
      GeometryRestored(original, current, now, p);
    }
  }

  lemma HarmlessNone(p: RecoveryParams, valid: seq<bool>)
    requires p.dataSectors <= |valid| && forall d: nat | d < p.dataSectors :: valid[d]
    ensures Harmless(p, valid)
  {
  }

  lemma MappedBlocks(current: seq<bv8>, parity: seq<Block>, p: RecoveryParams, valid: seq<bool>, proc: seq<Block>)
    requires |valid| == p.dataSectors + |parity| && Mapped(current, parity, p, valid, proc)
    ensures Blocks(proc, p.dataSectors, p.sectorSize)
  {
    hide Sector;
  }

  lemma {:induction false} NothingMissing(valid: seq<bool>, n: nat)
    requires n <= |valid| && |Missing(valid, n)| == 0
    ensures forall d: nat | d < n :: valid[d]
  {
    if n > 0 { NothingMissing(valid, n - 1); }
  }
}
