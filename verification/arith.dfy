/** Facts about Euclidean division on non-negative numbers that the
    formatters, the percentage and the hour count rely on. */
module Arith {
  /** Division of a non-negative number brackets it between two multiples
      of the divisor. */
  lemma DivBounds(a: int, b: int)
    requires a >= 0 && b > 0
    ensures 0 <= a / b && (a / b) * b <= a < (a / b + 1) * b
  {
    assert a == (a / b) * b + a % b;
    assert (a / b + 1) * b == (a / b) * b + b;
  }

  /** Division by a positive number does not reverse order. */
  lemma DivMonotonic(a: int, b: int, d: int)
    requires 0 <= a <= b && d > 0
    ensures a / d <= b / d
  {
    DivBounds(a, d);
    DivBounds(b, d);
    MulCancel(d, a / d, b / d + 1);
  }

  lemma MulCancel(d: int, x: int, y: int)
    requires d > 0 && d * x < d * y
    ensures x < y
  {
  }
}
