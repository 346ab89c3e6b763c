/** verify_matrix of tools/scan_rr.py: the parity of one shard recomputed with the Python tables. */
module ScanMatrix {
  import opened Gf16
  import opened Gf16Field
  import opened Gf16Sums
  import opened GfTables
  import opened SquareInverse
  import opened ErasureCode
  import opened SlotWords

  ghost function ChunkWords(chunks: seq<seq<Elem>>, k: nat): Vector {
    (i: nat) => if i < |chunks| && k < |chunks[i]| then chunks[i][k] else ZERO
  }

  predicate Shape(chunks: seq<seq<Elem>>, words: nat) {
    forall i: nat | i < |chunks| :: |chunks[i]| == words
  }

  /** The matrix row: the inverses of (j + d) xor i. */
  method MatrixRow(exp: seq<Elem>, log: seq<nat>, d: nat, j: nat) returns (mx: seq<Elem>)
    requires PyTables(exp, log) && d + j < 65536
    ensures |mx| == d
    ensures forall i: nat | i < d :: mx[i] == Weight(d + j, i) && InverseOfXor(mx[i], d + j, i)
  {
    hide Add, PyTables, Weight, InverseOfXor;
    mx := [];
    for i := 0 to d
      invariant |mx| == i
      invariant forall q: nat | q < i :: mx[q] == Weight(d + j, q) && InverseOfXor(mx[q], d + j, q)
    {
      CoordDiffer(d + j, i);
      var c := PyInv(exp, log, Add(Coord(d + j), Coord(i)));
      WeightIs(d + j, i);
      SlotInverse(d + j, i);
      mx := mx + [c];
    }
  }

  /** The accumulation loops, which skip zero coefficients and zero words, compute the parity unit in every word: the
      sum of the data words, each divided by the exclusive or of the two slot numbers. */
  method ParityShard(exp: seq<Elem>, log: seq<nat>, chunks: seq<seq<Elem>>, words: nat, j: nat)
    returns (mx: seq<Elem>, acc: seq<Elem>)
    requires PyTables(exp, log) && Shape(chunks, words) && |chunks| + j < 65536
    ensures |mx| == |chunks| && forall i: nat | i < |chunks| :: InverseOfXor(mx[i], |chunks| + j, i)
    ensures |acc| == words
    ensures forall k: nat | k < words :: acc[k] == RowSum(mx, ChunkWords(chunks, k), |chunks|)
    ensures forall k: nat | k < words :: acc[k] == ParityUnit(|chunks|, |chunks| + j, ChunkWords(chunks, k))
  {
    hide Add, Mul, PyTables, ParityUnit, Weight, InverseOfXor, RowSum;
    var d := |chunks|;
    mx := MatrixRow(exp, log, d, j);
    acc := seq(words, _ => ZERO);
    ParityStart(d + j, chunks, words);
    var i := 0;
    while i < d
      invariant 0 <= i <= d && |acc| == words
      invariant forall k: nat | k < words :: acc[k] == ParityUnit(i, d + j, ChunkWords(chunks, k))
    {
      acc := AddChunk(exp, log, chunks, words, d + j, i, mx[i], acc);
      i := i + 1;
    }
    forall k: nat | k < words ensures acc[k] == RowSum(mx, ChunkWords(chunks, k), d) {
      RowIsParity(mx, d + j, ChunkWords(chunks, k), d);
    }
  }

  /** The first n products of a row and a vector, added up. */
  ghost function RowSum(mx: seq<Elem>, data: Vector, n: nat): Elem
    requires n <= |mx|
  {
    if n == 0 then ZERO else Add(RowSum(mx, data, n - 1), Mul(mx[n - 1], data(n - 1)))
  }

  lemma {:induction false} RowIsParity(mx: seq<Elem>, s: nat, data: Vector, n: nat)
    requires n <= |mx| && forall i: nat | i < n :: mx[i] == Weight(s, i)
    ensures RowSum(mx, data, n) == ParityUnit(n, s, data)
  {
    hide Add, Mul, Weight, ParityUnit;
    if n == 0 {
      ParityNone(s, data);
    } else {
      RowIsParity(mx, s, data, n - 1);
      ParityStep(n - 1, s, data);
    }
  }

  lemma ParityNone(s: nat, data: Vector)
    ensures ParityUnit(0, s, data) == ZERO
  {
  }

  /** One chunk added into the accumulator, times its coefficient; zeros are skipped. */
  method AddChunk(exp: seq<Elem>, log: seq<nat>, chunks: seq<seq<Elem>>, words: nat, s: nat, i: nat, c: Elem,
      before: seq<Elem>)
    returns (acc: seq<Elem>)
    requires PyTables(exp, log) && Shape(chunks, words) && i < |chunks| && |before| == words && c == Weight(s, i)
    requires forall k: nat | k < words :: before[k] == ParityUnit(i, s, ChunkWords(chunks, k))
    ensures |acc| == words && forall k: nat | k < words :: acc[k] == ParityUnit(i + 1, s, ChunkWords(chunks, k))
  {
    hide Add, Mul, PyTables, ParityUnit, Weight;
    acc := before;
    if c == ZERO {
      forall k: nat | k < words ensures acc[k] == ParityUnit(i + 1, s, ChunkWords(chunks, k)) {
        ParityStep(i, s, ChunkWords(chunks, k));
        ZeroMul(chunks[i][k]);
        AddZero(acc[k]);
      }
      return;
    }
    var k := 0;
    while k < words
      invariant 0 <= k <= words && |acc| == words
      invariant forall q: nat | q < k :: acc[q] == ParityUnit(i + 1, s, ChunkWords(chunks, q))
      invariant forall q: nat | k <= q < words :: acc[q] == before[q]
    {
      var v := chunks[i][k];
      ParityStep(i, s, ChunkWords(chunks, k));
      if v != ZERO {
        acc := acc[k := Add(acc[k], PyMul(exp, log, c, v))];
      } else {
        ZeroMul(c);
        AddZero(acc[k]);
      }
      k := k + 1;
    }
  }

  lemma CoordDiffer(s: nat, d: nat)
    requires d < s < 65536
    ensures Add(Coord(s), Coord(d)) != ZERO
  {
    hide *;
    CoordInjective(s, d);
    AddEqualsZero(Coord(s), Coord(d));
  }

  lemma WeightIs(s: nat, d: nat)
    requires s < 65536 && d < 65536
    ensures Weight(s, d) == Inv(Add(Coord(s), Coord(d)))
  {
  }

  lemma ParityStart(s: nat, chunks: seq<seq<Elem>>, words: nat)
    ensures forall k: nat | k < words :: ParityUnit(0, s, ChunkWords(chunks, k)) == ZERO
  {
  }

  lemma ParityStep(n: nat, s: nat, data: Vector)
    ensures ParityUnit(n + 1, s, data) == Add(ParityUnit(n, s, data), Mul(Weight(s, n), data(n)))
  {
    hide Add, Mul, Weight;
    SumUnfold(n, (d: nat) => Mul(Weight(s, d), data(d)));
  }
}
