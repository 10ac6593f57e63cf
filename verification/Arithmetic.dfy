/** Facts about products, quotients and powers of natural numbers that the other modules lean on. */
module Arithmetic {

  function Min(a: int, b: int): int { if a <= b then a else b }
  function Max(a: int, b: int): int { if a <= b then b else a }

  function Quotient(total: nat, unit: nat): nat
    requires 0 < unit
  {
    total / unit
  }

  lemma ProductMonotone(a: nat, b: nat, m: nat)
    requires a <= b
    ensures a * m <= b * m
  {
    assert b * m == a * m + (b - a) * m;
  }

  lemma QuotientMonotone(a: nat, b: nat, d: nat)
    requires a <= b && 0 < d
    ensures a / d <= b / d
  {
    var qa, qb := a / d, b / d;
    if qb < qa {
      assert qa >= qb + 1;
      ProductMonotone(qb + 1, qa, d);
      assert false;
    }
  }

  lemma QuotientFits(count: nat, total: nat, unit: nat)
    requires 0 < unit && count <= total / unit
    ensures count * unit <= total
  {
    var q := total / unit;
    assert q * unit == count * unit + (q - count) * unit;
  }

  lemma QuotientAtLeast(q: nat, total: nat, unit: nat)
    requires 0 < unit && q * unit <= total
    ensures q <= total / unit
  {
    var d := total / unit;
    assert (d + 1) * unit == d * unit + unit > total;
    if d < q { ProductMonotone(d + 1, q, unit); }
  }

  function Pow2(k: nat): (p: nat)
    ensures p > 0
  {
    if k == 0 then 1 else 2 * Pow2(k - 1)
  }

  lemma Pow2Monotone(a: nat, b: nat)
    requires a < b
    ensures 2 * Pow2(a) <= Pow2(b)
    decreases b
  {
    if a + 1 < b { Pow2Monotone(a, b - 1); }
  }
}
