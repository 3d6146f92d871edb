/**
 * Shared numeric vocabulary for the lottery engine and the orbit paths.
 *
 * Numbers are mathematical reals: IEEE-754 rounding, NaN and the infinities
 * are not modelled. Host functions that Dafny cannot define (Math.hypot,
 * Math.sin, Math.cos) are passed around as function values; the facts the
 * proofs need about them are stated as predicates on those values.
 */
module Geometry {

  datatype Option<+T> = None | Some(value: T)

  /** `hypot` behaves like Math.hypot: it returns the non-negative square root
      of dx*dx + dy*dy. */
  ghost predicate IsHypot(hypot: (real, real) -> real) {
    forall dx, dy :: HypotAt(hypot, dx, dy)
  }

  /** `hypot` is the Euclidean length at the offset (dx, dy). Proofs obtain
      single instances of `IsHypot` through `Euclidean`. */
  ghost predicate HypotAt(hypot: (real, real) -> real, dx: real, dy: real) {
    0.0 <= hypot(dx, dy) && Sq(hypot(dx, dy)) == Sq(dx) + Sq(dy)
  }

  lemma Euclidean(hypot: (real, real) -> real, dx: real, dy: real)
    requires IsHypot(hypot)
    ensures 0.0 <= hypot(dx, dy) && Sq(hypot(dx, dy)) == Sq(dx) + Sq(dy)
  {
    assert HypotAt(hypot, dx, dy);
  }

  /** `sin` and `cos` satisfy the Pythagorean identity. */
  ghost predicate Pythagorean(sin: real -> real, cos: real -> real) {
    forall t :: Sq(sin(t)) + Sq(cos(t)) == 1.0
  }

  function Sq(x: real): real {
    x * x
  }

  function Abs(x: real): (r: real)
    ensures 0.0 <= r
    ensures r == x || r == -x
  {
    if x < 0.0 then -x else x
  }

  function Min(a: int, b: int): (r: int)
    ensures r <= a && r <= b
    ensures r == a || r == b
  {
    if a < b then a else b
  }

  /** The `rand(a, b)` helper of the lottery page, with the Math.random()
      draw `u` supplied by the caller. */
  function Rand(a: real, b: real, u: real): (r: real)
    requires 0.0 <= u < 1.0
    ensures a <= b ==> a <= r <= b
    ensures a < b ==> r < b
    ensures b <= a ==> b <= r <= a
  {
    var span := b - a;
    var d := u * span;
    ScaleBelowOne(u, span);
    a + d
  }

  /** For a draw u in [0, 1), u * span lies between 0 and span, strictly
      below span when span is positive. */
  lemma ScaleBelowOne(u: real, span: real)
    requires 0.0 <= u < 1.0
    ensures 0.0 <= span ==> 0.0 <= u * span <= span
    ensures 0.0 < span ==> u * span < span
    ensures span <= 0.0 ==> span <= u * span <= 0.0
  {
    if 0.0 < span {
      assert span - u * span == (1.0 - u) * span;
    } else {
      assert u * span - span == (1.0 - u) * (-span);
    }
  }

  /** The product of two numbers of the same strict sign is positive. The
      product is passed in as `p` so that callers never state the sign of a
      square directly. */
  lemma ProductPositive(a: real, b: real, p: real)
    requires p == a * b
    requires (0.0 < a && 0.0 < b) || (a < 0.0 && b < 0.0)
    ensures 0.0 < p
  {
    if a < 0.0 {
      assert p == (-a) * (-b);
    }
  }

  /** Squares are non-negative, and positive away from zero. */
  lemma SqPositive(x: real)
    ensures 0.0 <= Sq(x)
    ensures x != 0.0 ==> 0.0 < Sq(x)
  {
    if x != 0.0 {
      ProductPositive(x, x, Sq(x));
    }
  }

  /** A sum of two squares vanishes only at the origin. */
  lemma SquaresVanish(x: real, y: real)
    requires Sq(x) + Sq(y) == 0.0
    ensures x == 0.0 && y == 0.0
  {
    SqPositive(x);
    SqPositive(y);
  }

  lemma SqProduct(a: real, b: real, p: real)
    requires p == a * b
    ensures Sq(p) == Sq(a) * Sq(b)
  {
  }

  lemma SqQuotient(x: real, d: real)
    requires d != 0.0
    ensures Sq(d) != 0.0
    ensures Sq(x / d) == Sq(x) / Sq(d)
  {
    SqPositive(d);
  }

  /** Two parts of a non-zero whole, each divided by the whole, sum to one. */
  lemma SharesOfWhole(a: real, b: real, c: real)
    requires c == a + b && c != 0.0
    ensures a / c + b / c == 1.0
  {
  }

  /** Dividing a vector by its length gives a unit vector. */
  lemma UnitVector(x: real, y: real, d: real)
    requires d != 0.0 && Sq(d) == Sq(x) + Sq(y)
    ensures Sq(x / d) + Sq(y / d) == 1.0
  {
    SqQuotient(x, d);
    SqQuotient(y, d);
    SharesOfWhole(Sq(x), Sq(y), Sq(d));
  }

  /** A unit vector scaled by `len` has squared length `len` squared. */
  lemma ScaledUnitVector(nx: real, ny: real, len: real)
    requires Sq(nx) + Sq(ny) == 1.0
    ensures Sq(nx * len) + Sq(ny * len) == Sq(len)
  {
    SqProduct(nx, len, nx * len);
    SqProduct(ny, len, ny * len);
    SplitByShares(Sq(nx), Sq(ny), Sq(len));
  }

  lemma SplitByShares(a: real, b: real, m: real)
    requires a + b == 1.0
    ensures a * m + b * m == m
  {
  }

  /** Squaring is strictly monotone on the non-negative reals. */
  lemma SquareStrict(a: real, b: real)
    requires 0.0 <= b < a
    ensures Sq(b) < Sq(a)
  {
    ProductPositive(a - b, a + b, Sq(a) - Sq(b));
  }

  /** Squaring is monotone on the non-negative reals, in both directions. */
  lemma SquareMonotone(a: real, b: real)
    requires 0.0 <= a && 0.0 <= b
    ensures a <= b <==> Sq(a) <= Sq(b)
  {
    if a < b {
      SquareStrict(b, a);
    } else if b < a {
      SquareStrict(a, b);
    }
  }

  /** A non-negative square root is unique. */
  lemma SquareRootUnique(a: real, b: real)
    requires 0.0 <= a && 0.0 <= b
    requires Sq(a) == Sq(b)
    ensures a == b
  {
    SquareMonotone(a, b);
    SquareMonotone(b, a);
  }

  /** A Euclidean `hypot` does not depend on the direction of the offset. */
  lemma HypotEven(hypot: (real, real) -> real, dx: real, dy: real)
    requires IsHypot(hypot)
    ensures hypot(-dx, -dy) == hypot(dx, dy)
  {
    Euclidean(hypot, dx, dy);
    Euclidean(hypot, -dx, -dy);
    assert Sq(-dx) == Sq(dx) && Sq(-dy) == Sq(dy);
    SquareRootUnique(hypot(-dx, -dy), hypot(dx, dy));
  }

  lemma NegDiv(a: real, d: real)
    requires d != 0.0
    ensures (-a) / d == -(a / d)
  {
  }
}
