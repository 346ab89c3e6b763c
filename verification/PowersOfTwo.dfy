module PowersOfTwo {
  const TWO32: nat := 0x1_0000_0000
  const TWO64: nat := 0x1_0000_0000_0000_0000

  function Pow2(n: nat): (p: nat)
    ensures p > 0
  {
    if n == 0 then 1 else 2 * Pow2(n - 1)
  }

  lemma Pow2Next(n: nat)
    ensures Pow2(0) == 1 && Pow2(n + 1) == 2 * Pow2(n)
  {
  }

  lemma {:induction false} Pow2Grows(m: nat, n: nat)
    requires m <= n
    ensures Pow2(m) <= Pow2(n)
    decreases n
  {
    if m < n { Pow2Grows(m, n - 1); }
  }

  lemma QuotientUnique(n: nat, p: nat, q: nat, r: nat)
    requires n == p * q + r && r < p
    ensures n / p == q
  {
    var k, s := n / p, n % p;
    assert n == p * k + s;
    if k < q {
      FactorLess(p, k, q);
    } else if q < k {
      FactorLess(p, q, k);
    }
  }

  lemma QuotientAndRemainder(n: nat, p: nat, q: nat, r: nat)
    requires n == p * q + r && r < p
    ensures n / p == q && n % p == r
  {
    QuotientUnique(n, p, q, r);
    assert n == p * (n / p) + n % p;
  }

  lemma HalfOfSum(k: nat, r: nat)
    ensures (2 * k + r) / 2 == k + r / 2 && (2 * k + r) % 2 == r % 2
  {
  }

  lemma {:induction false} FactorLess(p: nat, a: nat, b: nat)
    requires a < b
    ensures p * a + p <= p * b
    decreases b
  {
    assert p * b == p * (b - 1) + p;
    if a < b - 1 { FactorLess(p, a, b - 1); }
  }
}
