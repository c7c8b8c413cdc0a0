/** Two facts about products and quotients that the solver needs spelled out. */
module Arithmetic {

  lemma MulBound(k: int, n: nat)
    ensures k >= 1 ==> k * n >= n
    ensures k <= -1 ==> k * n <= 0 - n
  {
  }

  /** Quotient and remainder are the only pair with a remainder in range; negative dividends floor. */
  lemma DivModUnique(x: int, n: nat, q: int, r: nat)
    requires r < n && x == q * n + r
    ensures x / n == q && x % n == r
  {
    var q', r' := x / n, x % n;
    assert q' * n + r' == q * n + r;
    assert (q' - q) * n == r - r';
    MulBound(q' - q, n);
  }
}
