/** Scalar helpers standing in for the `System.Math` calls and casts that the
    vector members apply to each component. Scalars are idealised as `real`. */
module Scalars {

  /** `Math.Abs` */
  function Abs(x: real): (r: real)
    ensures r >= 0.0
    ensures r == x || r == -x
  {
    if x < 0.0 then -x else x
  }

  /** `Math.Min` */
  function Min(a: real, b: real): (r: real)
    ensures r <= a && r <= b
    ensures r == a || r == b
  {
    if a <= b then a else b
  }

  /** `Math.Max` */
  function Max(a: real, b: real): (r: real)
    ensures a <= r && b <= r
    ensures r == a || r == b
  {
    if a >= b then a else b
  }

  /** `Math.Sign`: -1, 0 or 1, the factor that turns `x` into its magnitude. */
  function Sign(x: real): (r: int)
    ensures -1 <= r <= 1
    ensures r == 0 <==> x == 0.0
    ensures r as real * x == Abs(x)
  {
    if x < 0.0 then -1 else if x > 0.0 then 1 else 0
  }

  /** The explicit `(int)` cast of a floating value: truncation toward zero. */
  function Truncate(x: real): (r: int)
    ensures 0.0 <= x ==> 0 <= r && r as real <= x < r as real + 1.0
    ensures x < 0.0 ==> r <= 0 && r as real - 1.0 < x <= r as real
  {
    if x >= 0.0 then x.Floor else -((-x).Floor)
  }

  /** The square of a scalar. */
  function Square(x: real): real
  {
    x * x
  }

  /** A product of two factors of the same strict sign is positive. Stated
      as a function rather than a lemma: the solver settles the sign of a
      product reliably only when it arrives through a function's result. */
  ghost function LikeSignProduct(p: real, q: real): (r: real)
    requires (p > 0.0 && q > 0.0) || (p < 0.0 && q < 0.0)
    ensures r == p * q
    ensures r > 0.0
  {
    p * q
  }

  /** A square is non-negative, and zero exactly when its root is zero. */
  lemma SquareSign(x: real)
    ensures Square(x) >= 0.0
    ensures x != 0.0 ==> Square(x) > 0.0
    ensures x == 0.0 ==> Square(x) == 0.0
  {
    if x != 0.0 {
      var p := LikeSignProduct(x, x);
    }
  }

  /** Squaring distributes over a product. */
  lemma SquareOfProduct(x: real, k: real)
    ensures Square(x * k) == Square(k) * Square(x)
  {
  }
}
