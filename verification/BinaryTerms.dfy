/** Which binary digits of a constant are set, spelled out. */
module BinaryTerms {
  import opened Crc

  function Term(on: bool, e: nat): seq<nat> { if on then [e] else [] }

  /** The exponents that n binary digits stand for, the lowest digit the highest coefficient. */
  function Exponents(v: nat, n: nat): seq<nat>
    decreases n
  {
    if n == 0 then [] else Term(v % 2 == 1, n - 1) + Exponents(v / 2, n - 1)
  }

  lemma {:induction false} ExponentsAre(v: nat, n: nat, e: nat)
    ensures e in Exponents(v, n) <==> e < n && Digits(v, n)[n - 1 - e]
    decreases n
  {
    if n > 0 {
      hide Digits, Exponents;
      ExponentsAre(v / 2, n - 1, e);
      NextTerm(v, n - 1);
      NextDigit(v, n);
      if e < n - 1 { assert Digits(v, n)[n - 1 - e] == Digits(v / 2, n - 1)[n - 2 - e]; }
    }
  }

  lemma NextDigit(v: nat, n: nat)
    requires n > 0
    ensures Digits(v, n) == [v % 2 == 1] + Digits(v / 2, n - 1)
  {
  }

  function FourTerms(v: nat, n: nat): seq<nat> {
    Term(v % 2 == 1, n + 3) + (Term(v / 2 % 2 == 1, n + 2) + (Term(v / 4 % 2 == 1, n + 1) + Term(v / 8 % 2 == 1, n)))
  }

  lemma NextFour(v: nat, n: nat)
    ensures Exponents(v, n + 4) == FourTerms(v, n) + Exponents(v / 16, n)
  {
    hide Term, Exponents;
    NextTerm(v, n + 3);
    NextTerm(v / 2, n + 2);
    NextTerm(v / 4, n + 1);
    NextTerm(v / 8, n);
    Halvings(v);
  }

  lemma NextTerm(v: nat, n: nat)
    ensures Exponents(v, n + 1) == Term(v % 2 == 1, n) + Exponents(v / 2, n)
  {
  }

  lemma Halvings(v: nat)
    ensures v / 2 / 2 == v / 4 && v / 4 / 2 == v / 8 && v / 8 / 2 == v / 16 && v / 16 / 16 == v / 256
  {
  }

  lemma ByteTerms(v: nat, n: nat, terms: seq<nat>)
    requires FourTerms(v, n + 4) + FourTerms(v / 16, n) == terms
    ensures Exponents(v, n + 8) == terms + Exponents(v / 256, n)
  {
    hide FourTerms, Exponents;
    NextFour(v, n + 4);
    NextFour(v / 16, n);
    Halvings(v);
  }

  lemma NoTerms()
    ensures Exponents(0, 0) == []
  {
  }
}
