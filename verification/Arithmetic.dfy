/** Facts about products, quotients and remainders that the solver needs step by step. */
module Arithmetic {

  lemma MulNonNegative(a: int, b: int)
    requires a >= 0 && b >= 0
    ensures a * b >= 0
  {
  }

  /** The only multiple of `m` strictly between -m and m is zero. */
  lemma SmallMultiple(k: int, m: int)
    requires m > 0 && -m < k * m < m
    ensures k == 0
  {
    if k >= 1 {
      MulNonNegative(k - 1, m);
    } else if k <= -1 {
      MulNonNegative(-k - 1, m);
    }
  }

  /** Division with remainder is unique. */
  lemma DivModUnique(v: int, m: int, q: int, r: int)
    requires m > 0 && v == q * m + r && 0 <= r < m
    ensures v / m == q && v % m == r
  {
    assert v == v / m * m + v % m;
    assert (v / m - q) * m == r - v % m;
    SmallMultiple(v / m - q, m);
  }
}
