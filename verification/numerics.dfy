/** Real-valued helpers: the saturation shared by the PWM driver and the PI controller, and product/quotient signs. */
module Numerics {

  function Min(a: real, b: real): real {
    if a <= b then a else b
  }

  function Max(a: real, b: real): real {
    if a >= b then a else b
  }

  /** `max(0.0, min(x, 1.0))`: the value forced into the unit interval. */
  function Clamp01(x: real): (r: real)
    ensures 0.0 <= r <= 1.0
    ensures 0.0 <= x <= 1.0 ==> r == x
    ensures x <= 0.0 ==> r == 0.0
    ensures x >= 1.0 ==> r == 1.0
  {
    Max(0.0, Min(x, 1.0))
  }

  /** Saturation never reverses order: a larger input never gives a smaller output. */
  lemma Clamp01Monotone(x: real, y: real)
    requires x <= y
    ensures Clamp01(x) <= Clamp01(y)
  {
  }

  lemma MulNonNegative(a: real, b: real)
    requires a >= 0.0 && b >= 0.0
    ensures a * b >= 0.0
  {
  }

  lemma MulDistributes(a: real, b: real, c: real)
    ensures (a - b) * c == a * c - b * c
  {
  }

  /** Scaling by a non-negative factor keeps order. */
  lemma MulMonotone(a: real, b: real, c: real)
    requires a <= b && c >= 0.0
    ensures a * c <= b * c
  {
    MulNonNegative(b - a, c);
    MulDistributes(b, a, c);
  }

  /** Scaling by a non-negative factor keeps fractions of the unit interval in order, below the factor itself. */
  lemma ScaleBetween(f: real, f': real, c: real)
    requires 0.0 <= f <= f' <= 1.0 && c >= 0.0
    ensures 0.0 <= f * c <= f' * c <= c
    ensures 1.0 * c == c
  {
    MulMonotone(0.0, f, c);
    MulMonotone(f, f', c);
    MulMonotone(f', 1.0, c);
  }

  /** Two values that are the same non-negative factor times ordered unit fractions are ordered below the factor. */
  lemma ScaledChain(v: real, v': real, f: real, f': real, c: real)
    requires v == f * c && v' == f' * c
    requires 0.0 <= f <= f' <= 1.0 && c >= 0.0
    ensures 0.0 <= v <= v' <= c
  {
    ScaleBetween(f, f', c);
  }

  lemma DivCancels(x: real, y: real)
    requires y != 0.0
    ensures (x / y) * y == x
  {
  }

  lemma DivSelf(x: real)
    requires x != 0.0
    ensures x / x == 1.0
  {
  }

  /** Multiplying a scaled quotient back by its divisor cancels the division. */
  lemma QuotientTimes(a: real, b: real, c: real)
    requires b != 0.0
    ensures ((a / b) * c) * b == a * c
  {
    DivCancels(a, b);
    assert ((a / b) * c) * b == ((a / b) * b) * c;
  }

  /** A quotient of a positive part by a positive whole lies in (0, 1], and is 1 exactly for the whole. */
  lemma FractionBounds(x: real, y: real)
    requires 0.0 < x <= y
    ensures 0.0 < x / y <= 1.0
    ensures x == y ==> x / y == 1.0
  {
    var f := x / y;
    DivCancels(x, y);
    MulDistributes(1.0, f, y);
    SignOfFactor(f, y);
    SignOfFactor(1.0 - f, y);
  }

  /** A product with a positive factor has the sign of the other factor. */
  lemma SignOfFactor(a: real, b: real)
    requires b > 0.0
    ensures a * b > 0.0 <==> a > 0.0
    ensures a * b >= 0.0 <==> a >= 0.0
  {
  }

  /** Scaling by a non-positive factor reverses order. */
  lemma MulAntitone(a: real, b: real, c: real)
    requires a <= b && c <= 0.0
    ensures a * c >= b * c
  {
  }

  /** Dividing by a positive number keeps order. */
  lemma DivMonotone(a: real, b: real, d: real)
    requires a <= b && d > 0.0
    ensures a / d <= b / d
  {
  }
}
