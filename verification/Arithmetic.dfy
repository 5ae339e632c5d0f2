/** Quotients and remainders with a variable divisor. */
module Arithmetic {

  lemma NextMultiple(m: nat, k: nat)
    ensures (k + 1) * m == k * m + m
  {
  }

  lemma DivMod(m: nat, q: nat, r: nat)
    requires r < m
    ensures (q * m + r) / m == q && (q * m + r) % m == r
  {
    var x := q * m + r;
    var k := x / m - q;
    assert m * k + x % m == r;
    Multiple(m, k);
  }

  lemma Multiple(m: nat, k: int)
    ensures k >= 1 ==> m * k >= m
    ensures k <= -1 ==> m * k + m <= 0
  {
  }

  lemma Quotient(x: nat, m: nat, q: nat)
    requires m > 0 && x < q * m
    ensures x / m < q
  {
    var k := x / m - q;
    assert m * k + x % m < 0;
    Multiple(m, k);
  }
}
