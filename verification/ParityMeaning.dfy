/** What generate_parity of src/recovery/recovery_record.cpp writes, in terms of the protected bytes. */
module ParityMeaning {
  import opened Gf16
  import opened Gf16Primitive
  import opened Gf16Polynomials
  import opened Gf16Sums
  import opened SquareInverse
  import opened ErasureCode
  import opened SlotWords
  import opened EccUpdate
  import opened RecoveryRecord

  /** Byte i of sector d: the protected byte at its offset, zero past the end. */
  lemma SectorByte(bytes: seq<bv8>, size: nat, d: nat, i: nat)
    requires i < size
    ensures Sector(bytes, size, d)[i] == if d * size + i < |bytes| then bytes[d * size + i] else 0
  {
  }

  /** The coefficients of a word are the bits of its two bytes, the lower byte first. */
  lemma WordBits(b: Block, w: nat, e: nat)
    requires 2 * w + 1 < |b| && e < 16
    ensures Bit(WordAt(b, w).bits, e) == if e < 8 then Digit(b[2 * w] as nat, e) else Digit(b[2 * w + 1] as nat, e - 8)
  {
    hide Bit, Digit, Join;
    JoinBit(b[2 * w + 1], b[2 * w], e);
    if e < 8 { ByteDigit(b[2 * w], e); } else { ByteDigit(b[2 * w + 1], e - 8); }
  }

  /** Every word of a parity sector is the sum of the words at its place in the data sectors, each divided by the
      exclusive or of the two slot numbers; the same divisors serve all words. */
  lemma ParitySectorMeaning(bytes: seq<bv8>, size: nat, nd: nat, s: nat, block: Block) returns (c: Vector)
    requires IsParitySector(bytes, size, nd, s, block) && nd <= s < 65536
    ensures forall d: nat | d < nd :: InverseOfXor(c(d), s, d)
    ensures forall w: nat | 2 * w + 1 < size ::
      WordAt(block, w) == Sum(nd, (d: nat) => Mul(c(d), SectorWords(bytes, size, w)(d)))
  {
    hide InverseOfXor, Mul, Sum, WordAt, Sector;
    c := (d: nat) => Weight(s, d);
    forall d: nat | d < nd ensures InverseOfXor(c(d), s, d) { WeightInverse(s, d); }
    forall w: nat | 2 * w + 1 < size
      ensures WordAt(block, w) == Sum(nd, (d: nat) => Mul(c(d), SectorWords(bytes, size, w)(d)))
    {
      var x := SectorWords(bytes, size, w);
      SumEqual(nd, (d: nat) => Mul(Weight(s, d), x(d)), (d: nat) => Mul(c(d), x(d)));
    }
  }
}
