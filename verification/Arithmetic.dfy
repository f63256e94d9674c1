/** Small facts about integers that several modules need. */
module Arithmetic {

  function Max(a: nat, b: nat): (m: nat)
    ensures m >= a && m >= b && (m == a || m == b)
  {
    if a > b then a else b
  }

  function Min(a: nat, b: nat): (m: nat)
    ensures m <= a && m <= b && (m == a || m == b)
  {
    if a < b then a else b
  }

  function Pow2(d: nat): (p: nat)
    ensures p > d
  {
    if d == 0 then 1 else 2 * Pow2(d - 1)
  }

  lemma MulSign(m: int, z: int)
    requires m > 0
    ensures z >= 1 ==> m * z >= m
    ensures z <= -1 ==> m * z <= -m
  {
  }

  /** Quotient and remainder are determined by x == m * k + r. */
  lemma DivModUnique(x: int, m: int, k: int, r: int)
    requires 0 <= r < m && x == m * k + r
    ensures x / m == k && x % m == r
  {
    var k', r' := x / m, x % m;
    assert x == m * k' + r';
    MulSign(m, k - k');
    assert m * (k - k') == m * k - m * k';
  }
}
