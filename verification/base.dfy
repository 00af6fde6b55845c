/** Option and Result types and small real helpers shared by every module. */
module Base {

  /** Python's `None` or a present value. */
  datatype Option<+T> = None | Some(value: T)

  /** A computation that either produces a value or raises. */
  datatype Result<+T, +E> = Success(value: T) | Failure(error: E)

  /** Python's `abs` on a float. */
  function Abs(x: real): (r: real)
    ensures r >= 0.0
    ensures r == x || r == -x
  {
    if x < 0.0 then -x else x
  }

  /** Python's two-argument `max`. */
  function Max(a: real, b: real): (r: real)
    ensures r >= a && r >= b
    ensures r == a || r == b
  {
    if a >= b then a else b
  }

  /** Python's `min` over two values. */
  function Min(a: real, b: real): (r: real)
    ensures r <= a && r <= b
    ensures r == a || r == b
  {
    if a <= b then a else b
  }

  lemma ProductNonNeg(a: real, b: real)
    ensures a >= 0.0 && b >= 0.0 ==> a * b >= 0.0
  {
  }

  lemma ProductNonZero(a: real, b: real)
    requires a != 0.0 && b != 0.0
    ensures a * b != 0.0
  {
    assert (a * b) / b == a;
  }

  /** Scaling by a non-zero factor keeps distinct values distinct. */
  lemma ScaleInjective(u: real, v: real, d: real)
    requires u != v && d != 0.0
    ensures u * d != v * d
  {
    ProductNonZero(u - v, d);
    assert u * d - v * d == (u - v) * d;
  }

  lemma SquareNonNeg(a: real)
    ensures a * a >= 0.0
  {
    if a < 0.0 {
      assert a * a == (-a) * (-a);
    }
  }

  lemma SquareMono(a: real, b: real)
    requires 0.0 <= a < b
    ensures a * a < b * b
  {
    var e := b - a;
    assert b * b == a * a + 2.0 * a * e + e * e;
    assert a * e >= 0.0;
    assert e * e > 0.0;
  }

  /** `x ** 2`, built case by case so that its sign facts come with it. */
  function Square(x: real): (r: real)
    ensures r >= 0.0
    ensures x != 0.0 ==> r > 0.0
  {
    if x == 0.0 then 0.0
    else if x > 0.0 then SquareMono(0.0, x); x * x
    else SquareMono(0.0, -x); (-x) * (-x)
  }

  /** Scaling by a positive factor keeps a strict order shifted by one step. */
  lemma ScaleBelowNext(load: real, v: real, a: real)
    requires v > 0.0 && a < load / v + 1.0
    ensures a * v < load + v
  {
    var q := load / v;
    assert q * v == load;
    var b := q + 1.0 - a;
    assert b > 0.0;
    assert b * v > 0.0;
    assert b * v == q * v + v - a * v;
  }
}
