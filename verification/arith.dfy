/** Cancelling a positive factor from both sides of an inequality. */
module Arith {
  /** Dividing both sides of `q * b <= c * b` by a positive `b`. */
  lemma MulLeBound(q: int, b: int, c: int)
    requires b > 0 && q * b <= c * b
    ensures q <= c
  {
    assert (c - q) * b == c * b - q * b;
  }

  /** Dividing both sides of `c * b < q * b` by a positive `b`. */
  lemma MulLtBound(c: int, b: int, q: int)
    requires b > 0 && c * b < q * b
    ensures c < q
  {
    assert (q - c) * b == q * b - c * b;
  }
}
