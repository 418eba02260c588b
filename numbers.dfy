/** The JavaScript number operations the core uses, over exact reals:
    `Math.floor`, `Math.round`, truncation toward zero and the `%` operator. */
module Numbers {

  /** `Math.floor`. */
  function Floor(x: real): (r: int)
    ensures r as real <= x < r as real + 1.0
  {
    x.Floor
  }

  /** Truncation toward zero, the quotient rule behind JavaScript's `%`. */
  function Trunc(x: real): (r: int)
    ensures 0.0 <= x ==> r == Floor(x)
    ensures x < 0.0 ==> r == -Floor(-x)
    ensures 0.0 <= x ==> 0 <= r
    ensures x <= 0.0 ==> r <= 0
  {
    if x >= 0.0 then x.Floor else -((-x).Floor)
  }

  /** JavaScript's `x % y`: the remainder keeps the sign of the dividend. */
  function JsRem(x: real, y: real): (r: real)
    requires y > 0.0
    ensures 0.0 <= x ==> 0.0 <= r < y
    ensures x < 0.0 ==> -y < r <= 0.0
  {
    var q := Trunc(x / y) as real;
    QuotientBounds(x, y, q);
    x - y * q
  }

  /** Scales the bounds of a quotient by its divisor. */
  lemma QuotientBounds(x: real, y: real, q: real)
    requires y > 0.0
    ensures q <= x / y ==> y * q <= x
    ensures x / y < q + 1.0 ==> x < y * (q + 1.0)
    ensures q - 1.0 < x / y ==> y * (q - 1.0) < x
    ensures x / y <= q ==> x <= y * q
  {
    var d := x / y;
    assert x == y * d;
    ScaleLess(y, q, d);
    ScaleLess(y, d, q);
    if d < q + 1.0 { ScaledBelow(x, y, d, q + 1.0); }
    if q - 1.0 < d { ScaledAbove(x, y, d, q - 1.0); }
  }

  lemma ScaledBelow(x: real, y: real, d: real, e: real)
    requires y > 0.0 && x == y * d && d < e
    ensures x < y * e
  {
    ScaleLess(y, d, e);
  }

  lemma ScaledAbove(x: real, y: real, d: real, e: real)
    requires y > 0.0 && x == y * d && e < d
    ensures y * e < x
  {
    ScaleLess(y, e, d);
  }

  /** Multiplying by a positive number keeps the order. */
  lemma ScaleLess(y: real, a: real, b: real)
    requires y > 0.0
    ensures a < b ==> y * a < y * b
    ensures a <= b ==> y * a <= y * b
  {
    if a < b {
      assert y * b - y * a == y * (b - a);
      PositiveProduct(y, b - a);
    }
  }

  lemma PositiveProduct(a: real, b: real)
    requires a > 0.0 && b > 0.0
    ensures a * b > 0.0
  {
  }

  /** `Math.round`: to the nearest integer, halves toward positive infinity. */
  function Round(x: real): (r: int)
    ensures x - 0.5 < r as real <= x + 0.5
  {
    (x + 0.5).Floor
  }

  lemma {:induction false} RemOfNonNegative(x: real, y: real)
    requires y > 0.0 && x >= 0.0
    ensures JsRem(x, y) == x - y * Floor(x / y) as real
    ensures Floor(x / y) as real * y <= x
  {
    var q := Floor(x / y);
    assert q as real <= x / y;
    assert q as real * y <= (x / y) * y;
  }
}
