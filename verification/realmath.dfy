/**
  The few functions of Go's `math` package that the renderer uses, over
  exact reals. `math.Sqrt` cannot be defined on reals in Dafny, so every
  member that needs it takes the square root as a parameter `sqrt` and
  requires `IsSqrt(sqrt)`: non-negative results whose square is the argument.
  Nothing is assumed about `sqrt` on negative arguments (Go returns NaN there).
 */
module RealMath {

  /** `sqrt` agrees with the real square root on every non-negative argument. */
  ghost predicate IsSqrt(sqrt: real -> real) {
    forall x: real :: 0.0 <= x ==> 0.0 <= sqrt(x) && sqrt(x) * sqrt(x) == x
  }

  /** math.Min on non-NaN arguments. */
  function Min(a: real, b: real): (r: real)
    ensures r <= a && r <= b
    ensures r == a || r == b
  {
    if a <= b then a else b
  }

  /** math.Abs. */
  function Abs(a: real): (r: real)
    ensures 0.0 <= r
    ensures r == a || r == -a
  {
    if a < 0.0 then -a else a
  }

  /** math.Pow(x, 5), written as a product. */
  function Pow5(x: real): real {
    x * x * x * x * x
  }

  /** A fifth power of a number in [0, 1] stays in [0, 1]. */
  lemma Pow5UnitInterval(x: real)
    requires 0.0 <= x <= 1.0
    ensures 0.0 <= Pow5(x) <= 1.0
  {
    var x2 := x * x;
    assert 0.0 <= x2 <= 1.0 by { assert x * x <= 1.0 * x; }
    var x4 := x2 * x2;
    assert 0.0 <= x4 <= 1.0 by { assert x2 * x2 <= 1.0 * x2; }
    assert Pow5(x) == x4 * x;
    assert x4 * x <= 1.0 * x;
  }

  /** The square root of a non-negative number is determined by the two facts of IsSqrt. */
  lemma SqrtUnique(sqrt: real -> real, x: real, s: real)
    requires IsSqrt(sqrt)
    requires 0.0 <= s && s * s == x
    ensures sqrt(x) == s
  {
    var t := sqrt(x);
    assert 0.0 <= t && t * t == x;
    assert (t - s) * (t + s) == 0.0;
    if t + s == 0.0 {
      assert t == 0.0 && s == 0.0;
    } else {
      assert t - s == 0.0;
    }
  }

  /** The square root of a positive number is positive. */
  lemma SqrtPositive(sqrt: real -> real, x: real)
    requires IsSqrt(sqrt)
    requires 0.0 < x
    ensures 0.0 < sqrt(x)
  {
    assert sqrt(x) * sqrt(x) == x;
  }

  // Sign facts about products. Each takes the product as a parameter `p`
  // so that callers can hand over any term known to equal it.

  lemma MulPositive(a: real, b: real, p: real)
    requires 0.0 < a && 0.0 < b && p == a * b
    ensures 0.0 < p
  {
  }

  lemma MulNonNegative(a: real, b: real, p: real)
    requires !(a < 0.0) && !(b < 0.0) && p == a * b
    ensures !(p < 0.0)
  {
  }

  lemma MulNonZero(a: real, b: real, p: real)
    requires a != 0.0 && b != 0.0 && p == a * b
    ensures p != 0.0
  {
    if 0.0 < a && 0.0 < b {
      MulPositive(a, b, p);
    } else if a < 0.0 && b < 0.0 {
      MulPositive(-a, -b, p);
    } else if a < 0.0 {
      MulPositive(-a, b, -p);
    } else {
      MulPositive(a, -b, -p);
    }
  }

  /** A positive product with a positive factor has a positive other factor. */
  lemma PositiveFactor(a: real, b: real, p: real)
    requires 0.0 < a && 0.0 < p && p == a * b
    ensures 0.0 < b
  {
    if !(0.0 < b) {
      MulNonNegative(a, -b, -p);
    }
  }

  lemma MulByZero(a: real, b: real)
    requires b == 0.0
    ensures a * b == 0.0
  {
  }

  /** Multiplying a quotient back by its non-zero divisor gives the dividend. */
  lemma DivMul(x: real, a: real)
    requires a != 0.0
    ensures a * (x / a) == x
  {
  }

  /** A product of a positive width and a draw in [0, 1) lies in [0, width). */
  lemma MulUnit(w: real, d: real, p: real)
    requires 0.0 < w && 0.0 <= d < 1.0 && p == w * d
    ensures 0.0 <= p < w
  {
  }

  lemma SquareNonNegative(a: real, s: real)
    requires s == a * a
    ensures !(s < 0.0)
  {
  }

  lemma SquareNonZero(a: real, s: real)
    requires s == a * a
    ensures a != 0.0 ==> s != 0.0
  {
    if 0.0 < a {
      MulPositive(a, a, s);
    } else if a < 0.0 {
      MulPositive(-a, -a, s);
    }
  }

  /** A real whose square is at most 1 lies in [-1, 1]. */
  lemma SquareAtMostOne(a: real)
    requires a * a <= 1.0
    ensures -1.0 <= a <= 1.0
  {
  }

  /** The product of two numbers in [0, 1] lies in [0, 1]. */
  lemma MulUnitInterval(a: real, b: real, p: real)
    requires 0.0 <= a <= 1.0 && 0.0 <= b <= 1.0 && p == a * b
    ensures 0.0 <= p <= 1.0
  {
    MulNonNegative(a, b, p);
    MulNonNegative(1.0 - a, b, b - p);
  }
}
