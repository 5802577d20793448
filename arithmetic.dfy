/** Facts about products and Euclidean division that the solver does not
    find on its own. */
module Arithmetic {

  /** Multiplying by a factor that is not negative keeps the order. */
  lemma MulMonotone(c: nat, x: int, y: int)
    requires x <= y
    ensures c * x <= c * y
  {
    var d: nat := y - x;
    assert c * y == c * x + c * d;
  }

  /** Euclidean division has one quotient and one remainder. */
  lemma DivModUnique(n: nat, q: int, r: int, p: int)
    requires 0 <= r < n && p == q * n + r
    ensures p / n == q && p % n == r
  {
    var q', r' := p / n, p % n;
    assert q' * n + r' == p;
    assert (q - q') * n == r' - r;
    if q - q' >= 1 {
      MulMonotone(n, 1, q - q');
      assert false;
    }
    if q' - q >= 1 {
      MulMonotone(n, 1, q' - q);
      assert false;
    }
  }
}
