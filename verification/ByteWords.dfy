/** Numbers below 256 and 8-bit words. */
module ByteWords {

  lemma ByteNext(b: bv8)
    ensures b == 0xFF <==> b as nat == 255
    ensures b != 0xFF ==> (b + 1) as nat == b as nat + 1
  {
  }

  /** The byte of the given value. */
  function ByteOf(n: nat): bv8 { if n == 0 then 0 else ByteOf(n - 1) + 1 }

  lemma {:induction false} ByteValue(n: nat)
    requires n < 256
    ensures ByteOf(n) as nat == n
  {
    if n > 0 {
      ByteValue(n - 1);
      ByteNext(ByteOf(n - 1));
    }
  }

  lemma ByteInjective(a: bv8, b: bv8)
    requires a as nat == b as nat
    ensures a == b
  {
    assert (a as nat) as bv8 == a;
    assert (b as nat) as bv8 == b;
  }

  /** The low bit, and the word without it, as numbers. */
  lemma ByteHalf(b: bv8)
    ensures b & 1 == 1 <==> b as nat % 2 == 1
    ensures (b >> 1) as nat == b as nat / 2
  {
  }
}
