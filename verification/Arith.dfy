/** Quotient and remainder are determined by the division equation. */
module Arith {
  lemma DivModUnique(x: int, d: int, q: int, r: int)
    requires d > 0 && 0 <= r < d && x == q * d + r
    ensures x / d == q && x % d == r
  {
    var q', r' := x / d, x % d;
    assert (q' - q) * d == r - r';
    if q' > q {
      Larger(q' - q, d);
    }
    if q' < q {
      Larger(q - q', d);
    }
  }

  lemma Larger(k: int, d: int)
    requires k >= 1 && d > 0
    ensures k * d >= d
  {
  }
}
