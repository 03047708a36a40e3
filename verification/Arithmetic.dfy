/** Powers and remainders that several modules need. */
module Arithmetic {

  function Pow2(n: nat): (p: nat)
    ensures p > 0
  {
    if n == 0 then 1 else 2 * Pow2(n - 1)
  }

  /** 256 to the n: how many values n bytes have. */
  function Size(n: nat): (p: nat)
    ensures p > 0
  {
    if n == 0 then 1 else 256 * Size(n - 1)
  }

  lemma SmallMultiple(d: int, m: int)
    requires -m < d * m < m
    ensures d == 0
  {
    assert d >= 1 ==> d * m >= m;
    assert d <= -1 ==> d * m <= -m;
  }

  /** Quotient and remainder are the only ones. */
  lemma ModUnique(a: nat, m: nat, q: int, r: nat)
    requires m > 0 && a == m * q + r && r < m
    ensures a % m == r && a / m == q
  {
    assert (a / m - q) * m == r - a % m;
    SmallMultiple(a / m - q, m);
  }
}
