/** Small facts about real arithmetic used by the percentage and
    median-rank proofs. */
module Arith {

  /** Multiplying by a positive number preserves the sign. */
  lemma SignOfProduct(x: real, y: real)
    ensures y > 0.0 ==> (x > 0.0 <==> x * y > 0.0) && (x < 0.0 <==> x * y < 0.0)
  {
  }

  /** A ratio of a positive number to a larger one lies strictly inside (0, 1). */
  lemma UnitRatio(a: real, d: real)
    requires 0.0 < a < d
    ensures 0.0 < a / d < 1.0
  {
    var f := a / d;
    SignOfProduct(f, d);
    SignOfProduct(f - 1.0, d);
    assert (f - 1.0) * d == a - d;
  }

  /** The reciprocal of a number strictly inside (0, 1) exceeds one. */
  lemma InverseAboveOne(g: real)
    requires 0.0 < g < 1.0
    ensures 1.0 / g > 1.0
  {
    var h := 1.0 / g;
    SignOfProduct(h - 1.0, g);
    assert h * g == 1.0;
    assert (h - 1.0) * g == 1.0 - g;
  }

  /** Scaling by a positive number preserves order. */
  lemma ScaledOrder(x: real, y: real, n: real)
    requires n > 0.0 && x * n <= y * n
    ensures x <= y
  {
    SignOfProduct(x - y, n);
    assert (x - y) * n == x * n - y * n;
  }

  /** Division by a positive number preserves strict order. */
  lemma RatioOrder(a: real, b: real, d: real)
    requires d > 0.0 && a < b
    ensures a / d < b / d
  {
    assert (a / d) * d == a && (b / d) * d == b;
    assert (b / d - a / d) * d == b - a;
    SignOfProduct(b / d - a / d, d);
  }

  /** Two fractions over the same denominator add up to their numerators' sum over it. */
  lemma RatioSum(a: real, b: real, d: real)
    requires d > 0.0
    ensures a / d + b / d == (a + b) / d
  {
    assert (a / d + b / d) * d == a + b;
    assert ((a + b) / d) * d == a + b;
    ScaledOrder(a / d + b / d, (a + b) / d, d);
    ScaledOrder((a + b) / d, a / d + b / d, d);
  }
}
