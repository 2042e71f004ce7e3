/** Constants, the random-number helpers and the handful of <cmath> functions
    the renderer relies on (RTIOW/libs/common.h).

    The model works over mathematical reals.  `sqrt` and `tan` are not
    computable here, so every operation that needs them receives a `MathLib`
    record holding two total functions; `Lawful` states the only facts about
    them the model is allowed to use. */
module Common {

  datatype Option<+T> = None | Some(value: T)

  /** `pi` as the source's double stores it: the literal 3.1415926535897932385
      rounds to this binary value, which lies just below the real pi, so the
      tangent is positive on the whole open interval (0, Pi/2) below. */
  const Pi: real := 3.141592653589793115997963468544185161590576171875

  /** The largest value of the source's 32-bit `int`. */
  const IntMax: int := 0x7fff_ffff

  /** The two transcendental functions the renderer calls. */
  datatype MathLib = MathLib(sqrt: real -> real, tan: real -> real)

  /** The axioms assumed of `sqrt` and `tan`: the principal square root of a
      non-negative number, and a tangent that vanishes at 0 and is positive on
      the open interval (0, pi/2). */
  ghost predicate Lawful(m: MathLib) {
    && (forall x: real :: 0.0 <= x ==> 0.0 <= m.sqrt(x) && m.sqrt(x) * m.sqrt(x) == x)
    && m.tan(0.0) == 0.0
    && (forall x: real :: 0.0 < x < Pi / 2.0 ==> 0.0 < m.tan(x))
  }

  /** A non-negative number whose square is `x` is the value `sqrt` returns. */
  lemma SqrtUnique(m: MathLib, x: real, s: real)
    requires Lawful(m)
    requires 0.0 <= s && s * s == x
    ensures m.sqrt(x) == s
  {
    SquareInjective(m.sqrt(x), s);
  }

  /** `sqrt` of a non-negative number is a non-negative square root of it. */
  lemma SqrtSquare(m: MathLib, x: real)
    requires Lawful(m) && 0.0 <= x
    ensures 0.0 <= m.sqrt(x) && Sq(m.sqrt(x)) == x
  {
  }

  /** Two non-negative reals with equal squares are equal. */
  lemma SquareInjective(a: real, b: real)
    requires 0.0 <= a && 0.0 <= b && a * a == b * b
    ensures a == b
  {
    if a < b {
      SquareStrictlyMonotone(a, b);
    } else if b < a {
      SquareStrictlyMonotone(b, a);
    }
  }

  lemma SquareStrictlyMonotone(lo: real, hi: real)
    requires 0.0 <= lo < hi
    ensures lo * lo < hi * hi
  {
    var mid := lo * hi;
    var small := lo * lo;
    var big := hi * hi;
    assert small <= mid < big;
  }

  /** The square root of a positive number is positive. */
  lemma SqrtPositive(m: MathLib, x: real)
    requires Lawful(m)
    requires 0.0 < x
    ensures 0.0 < m.sqrt(x)
  {
    assert m.sqrt(x) * m.sqrt(x) == x;
  }

  function Sq(x: real): real {
    x * x
  }

  lemma SquareNonNegative(x: real)
    ensures 0.0 <= Sq(x)
  {
  }

  lemma SquarePositive(x: real)
    requires x != 0.0
    ensures 0.0 < Sq(x)
  {
    assert Sq(x) * (1.0 / x) == x;
  }

  lemma MulNonNegative(a: real, b: real)
    requires 0.0 <= a && 0.0 <= b
    ensures 0.0 <= a * b
  {
  }

  /** A product of two numbers in [0, 1] is at most either of them. */
  lemma MulAtMostOne(a: real, b: real)
    requires 0.0 <= a <= 1.0 && 0.0 <= b
    ensures 0.0 <= a * b <= b
  {
    MulNonNegative(a, b);
    MulNonNegative(1.0 - a, b);
    assert (1.0 - a) * b == b - a * b;
  }

  lemma SquareNegated(x: real)
    ensures Sq(-x) == Sq(x)
  {
  }

  /** Multiplying by a non-negative factor preserves order. */
  lemma MulMonotone(c: real, a: real, b: real)
    requires 0.0 <= c && a <= b
    ensures c * a <= c * b
  {
    MulNonNegative(c, b - a);
    assert c * (b - a) == c * b - c * a;
  }

  lemma MulMonotoneRight(a: real, b: real, c: real)
    requires a <= b && 0.0 <= c
    ensures a * c <= b * c
  {
    MulNonNegative(b - a, c);
    assert (b - a) * c == b * c - a * c;
  }

  /** Scaling a positive number by a factor in [0, 1) makes it no larger
      but keeps it non-negative. */
  lemma MulBelowOne(c: real, a: real)
    requires 0.0 < c && 0.0 <= a < 1.0
    ensures 0.0 <= c * a < c
  {
    var rest := c * (1.0 - a);
    assert rest == c - c * a;
    assert 0.0 < rest;
  }

  /** `static_cast<int>` of a double: truncation toward zero. */
  function Trunc(x: real): (n: int)
    ensures 0.0 <= x ==> 0 <= n && n as real <= x < n as real + 1.0
    ensures x < 0.0 ==> n <= 0 && n as real - 1.0 < x <= n as real
  {
    if 0.0 <= x then x.Floor else -((-x).Floor)
  }

  /** Truncation toward zero is monotone. */
  lemma TruncMonotone(x: real, y: real)
    requires x <= y
    ensures Trunc(x) <= Trunc(y)
  {
    if 0.0 <= x {
      assert x.Floor <= y.Floor;
    } else if y < 0.0 {
      assert (-y).Floor <= (-x).Floor;
    }
  }

  /** Conversion of an angle in degrees to radians; it maps 0 to 0, 180 to pi,
      and every field of view strictly between 0 and 180 degrees to a
      half-angle strictly between 0 and pi/2, where `tan` is defined and
      positive. */
  function DegreesToRadians(degrees: real): (radians: real)
    ensures degrees == 0.0 ==> radians == 0.0
    ensures degrees == 180.0 ==> radians == Pi
    ensures 0.0 < degrees < 180.0 ==> 0.0 < radians / 2.0 < Pi / 2.0
    ensures degrees < 0.0 ==> radians < 0.0
  {
    degrees * Pi / 180.0
  }

  /** `random_double()`: `rand()` returned `k`, a value in [0, RAND_MAX];
      the result is a real in [0, 1). */
  function RandomDouble(k: int, randMax: int): (r: real)
    requires 0 <= k <= randMax
    ensures 0.0 <= r < 1.0
    ensures k == 0 ==> r == 0.0
  {
    k as real / (randMax as real + 1.0)
  }

  /** `random_double(min, max)`: the same draw stretched onto [min, max). */
  function RandomDoubleIn(min: real, max: real, k: int, randMax: int): (r: real)
    requires 0 <= k <= randMax
    ensures min < max ==> min <= r < max
    ensures min == max ==> r == min
  {
    var d := RandomDouble(k, randMax);
    var width := max - min;
    var offset := width * d;
    assert min < max ==> 0.0 <= offset < width by {
      if min < max {
        MulBelowOne(width, d);
      }
    }
    min + offset
  }
}
