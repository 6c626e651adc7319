/** Small facts about real numbers shared by the geometry modules. */
module Reals {
  function Min(a: real, b: real): real { if a <= b then a else b }

  function Max(a: real, b: real): real { if a >= b then a else b }

  lemma MulNonNegative(a: real, b: real)
    requires a >= 0.0 && b >= 0.0
    ensures a * b >= 0.0
  {
  }

  lemma MulMonotone(a: real, b: real, c: real, d: real)
    requires 0.0 <= a <= c && 0.0 <= b <= d
    ensures a * b <= c * d
  {
    assert a * b <= c * b;
    assert c * b <= c * d;
  }

  /** A positive factor can be cancelled from both sides of an inequality. */
  lemma CancelPositive(a: real, b: real, c: real)
    requires c > 0.0 && a * c <= b * c
    ensures a <= b
  {
  }

  /** Dividing by a positive number keeps the sign. */
  lemma DivSign(v: real, d: real)
    requires d > 0.0
    ensures v <= 0.0 ==> v / d <= 0.0
    ensures v >= 0.0 ==> v / d >= 0.0
  {
  }

  /** A product of two fractions is no larger than either of them. */
  lemma FractionProduct(a: real, b: real, c: real)
    requires c == a * b
    ensures 0.0 <= a && 0.0 <= b ==> 0.0 <= c
    ensures 0.0 <= a && b <= 1.0 ==> c <= a
    ensures a <= 1.0 && 0.0 <= b ==> c <= b
  {
    if 0.0 <= a && 0.0 <= b {
      MulNonNegative(a, b);
    }
    if 0.0 <= a && b <= 1.0 {
      assert a * b <= a * 1.0;
    }
    if a <= 1.0 && 0.0 <= b {
      assert a * b <= 1.0 * b;
    }
  }
}
