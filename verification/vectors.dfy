/** Three-component vectors, used as points, directions and colours.

    The renderer's vector header is not part of this model; these are the
    operations the modelled code calls, with the meaning the ray-tracing
    book gives them: component-wise arithmetic, dot and cross products,
    `unit_vector(v) = v / |v|`, `near_zero` (every component below 1e-8 in
    magnitude), `reflect` and `refract`. */
module Vectors {
  import opened Common

  datatype Vec3 = Vec3(x: real, y: real, z: real)

  type Point3 = Vec3
  type Color = Vec3

  const Zero: Vec3 := Vec3(0.0, 0.0, 0.0)

  function Add(a: Vec3, b: Vec3): Vec3 {
    Vec3(a.x + b.x, a.y + b.y, a.z + b.z)
  }

  function Sub(a: Vec3, b: Vec3): Vec3 {
    Vec3(a.x - b.x, a.y - b.y, a.z - b.z)
  }

  function Neg(a: Vec3): Vec3 {
    Vec3(-a.x, -a.y, -a.z)
  }

  /** `t * v` */
  function Scale(t: real, v: Vec3): Vec3 {
    Vec3(t * v.x, t * v.y, t * v.z)
  }

  /** Component-wise product, used to attenuate colours. */
  function Mul(a: Vec3, b: Vec3): Vec3 {
    Vec3(a.x * b.x, a.y * b.y, a.z * b.z)
  }

  /** `v / t`, which the vector header defines as `(1/t) * v`. */
  function Div(v: Vec3, t: real): Vec3
    requires t != 0.0
  {
    Scale(1.0 / t, v)
  }

  function Dot(a: Vec3, b: Vec3): real {
    a.x * b.x + a.y * b.y + a.z * b.z
  }

  function Cross(a: Vec3, b: Vec3): Vec3 {
    Vec3(a.y * b.z - a.z * b.y,
         a.z * b.x - a.x * b.z,
         a.x * b.y - a.y * b.x)
  }

  function LengthSquared(v: Vec3): real {
    Sq(v.x) + Sq(v.y) + Sq(v.z)
  }

  function Length(m: MathLib, v: Vec3): real {
    m.sqrt(LengthSquared(v))
  }

  predicate NearZero(v: Vec3) {
    var s := 0.00000001;
    -s < v.x < s && -s < v.y < s && -s < v.z < s
  }

  /** `unit_vector`: a vector of length one pointing the same way as `v`.
      The zero vector has no direction, so callers must not pass it. */
  function UnitVector(m: MathLib, v: Vec3): (u: Vec3)
    requires Lawful(m)
    requires 0.0 < LengthSquared(v)
    ensures LengthSquared(u) == 1.0
    ensures Cross(u, v) == Zero && 0.0 < Dot(u, v)
  {
    var len := Length(m, v);
    SqrtPositive(m, LengthSquared(v));
    var k := 1.0 / len;
    LengthSquaredScale(k, v);
    assert k * k * LengthSquared(v) == 1.0 by {
      var kk := k * k;
      var l2 := len * len;
      assert l2 == LengthSquared(v);
      assert kk * l2 == 1.0;
    }
    DotScaleLeft(k, v, v);
    CrossScaleSelf(k, v);
    Div(v, len)
  }

  /** A vector that already has unit length is its own unit vector. */
  lemma UnitVectorOfUnit(m: MathLib, v: Vec3)
    requires Lawful(m) && LengthSquared(v) == 1.0
    ensures UnitVector(m, v) == v
  {
    SqrtUnique(m, 1.0, 1.0);
    assert Scale(1.0, v) == v;
  }

  /** `reflect(v, n) = v - 2 (v . n) n`. */
  function Reflect(v: Vec3, n: Vec3): Vec3 {
    Sub(v, Scale(2.0 * Dot(v, n), n))
  }

  /** `refract(uv, n, eta)`: the component of the refracted direction
      perpendicular to `n` is `eta * (uv + cos n)`, and the parallel one is
      `-sqrt(|1 - |perp|^2|) n`. */
  function Refract(m: MathLib, uv: Vec3, n: Vec3, etaiOverEtat: real): Vec3 {
    var perp := RefractPerp(uv, n, etaiOverEtat);
    Add(perp, RefractParallel(m, perp, n))
  }

  /** The part of the refracted direction perpendicular to `n`. */
  function RefractPerp(uv: Vec3, n: Vec3, etaiOverEtat: real): Vec3 {
    Scale(etaiOverEtat, Add(uv, Scale(CosTheta(uv, n), n)))
  }

  /** The cosine of the angle between the reversed unit direction and the
      normal, capped at 1 against rounding. */
  function CosTheta(uv: Vec3, n: Vec3): real {
    Min(Dot(Neg(uv), n), 1.0)
  }

  /** The part of the refracted direction along `-n`, which makes up the
      length missing from `perp`. */
  function RefractParallel(m: MathLib, perp: Vec3, n: Vec3): Vec3 {
    Scale(-m.sqrt(Abs(1.0 - LengthSquared(perp))), n)
  }

  function Min(a: real, b: real): real {
    if a <= b then a else b
  }

  function Abs(a: real): real {
    if a < 0.0 then -a else a
  }

  // ---------------------------------------------------------------------
  // Algebraic facts used by the proofs.

  lemma LengthSquaredNonNegative(v: Vec3)
    ensures 0.0 <= LengthSquared(v)
    ensures LengthSquared(v) == 0.0 <==> v == Zero
  {
    SquareNonNegative(v.x);
    SquareNonNegative(v.y);
    SquareNonNegative(v.z);
    if v.x != 0.0 { SquarePositive(v.x); }
    if v.y != 0.0 { SquarePositive(v.y); }
    if v.z != 0.0 { SquarePositive(v.z); }
  }

  lemma LengthSquaredScale(k: real, v: Vec3)
    ensures LengthSquared(Scale(k, v)) == k * k * LengthSquared(v)
  {
  }

  lemma DotScaleLeft(k: real, a: Vec3, b: Vec3)
    ensures Dot(Scale(k, a), b) == k * Dot(a, b)
  {
  }

  lemma DotScaleRight(k: real, a: Vec3, b: Vec3)
    ensures Dot(a, Scale(k, b)) == k * Dot(a, b)
  {
  }

  lemma DotSymmetric(a: Vec3, b: Vec3)
    ensures Dot(a, b) == Dot(b, a)
  {
  }

  /** The dot product with a fixed vector is additive. */
  lemma DotAddLeft(a: Vec3, b: Vec3, n: Vec3)
    ensures Dot(Add(a, b), n) == Dot(a, n) + Dot(b, n)
    ensures Dot(Sub(a, b), n) == Dot(a, n) - Dot(b, n)
  {
  }

  lemma DotNegLeft(a: Vec3, n: Vec3)
    ensures Dot(Neg(a), n) == -Dot(a, n)
  {
  }

  /** A multiple of a vector orthogonal to `n` is orthogonal to `n`. */
  lemma PerpScale(k: real, a: Vec3, n: Vec3)
    requires Dot(a, n) == 0.0
    ensures Dot(Scale(k, a), n) == 0.0
  {
    DotScaleLeft(k, a, n);
  }

  /** Negating both arguments leaves the dot product unchanged. */
  lemma DotNegated(a: Vec3, b: Vec3)
    ensures Dot(Neg(a), Neg(b)) == Dot(a, b)
    ensures Dot(a, a) == LengthSquared(a)
  {
  }

  lemma LengthSquaredZero()
    ensures LengthSquared(Zero) == 0.0
  {
    assert Zero.x == 0.0;
    assert Sq(0.0) == 0.0;
  }

  /** Squared length and normal component of `a + c n`. */
  lemma AddScaledExpansion(a: Vec3, c: real, n: Vec3)
    ensures LengthSquared(Add(a, Scale(c, n))) == LengthSquared(a) + 2.0 * c * Dot(a, n) + Sq(c) * LengthSquared(n)
    ensures Dot(Add(a, Scale(c, n)), n) == Dot(a, n) + c * LengthSquared(n)
  {
  }

  lemma AddZeroLeft(p: Vec3, q: Vec3)
    requires p == Vec3(0.0, 0.0, 0.0)
    ensures Add(p, q) == q
  {
  }

  lemma NegNeg(v: Vec3)
    ensures Neg(Neg(v)) == v
  {
  }

  lemma ScaleMinusOne(k: real, v: Vec3)
    requires k == -1.0
    ensures Scale(k, v) == Neg(v)
  {
  }

  /** Adding a multiple of a unit vector orthogonal to `a` adds the square
      of the multiple to the squared length. */
  lemma AddOrthogonal(a: Vec3, t: real, n: Vec3)
    requires LengthSquared(n) == 1.0 && Dot(a, n) == 0.0
    ensures LengthSquared(Add(a, Scale(t, n))) == LengthSquared(a) + Sq(t)
  {
    LengthSquaredScale(t, n);
    DotScaleRight(t, a, n);
    assert LengthSquared(Add(a, Scale(t, n)))
        == LengthSquared(a) + 2.0 * Dot(a, Scale(t, n)) + LengthSquared(Scale(t, n));
  }

  lemma CrossScaleSelf(k: real, v: Vec3)
    ensures Cross(Scale(k, v), v) == Zero
  {
  }

  lemma CrossScaleRight(a: Vec3, k: real, b: Vec3)
    ensures Cross(a, Scale(k, b)) == Scale(k, Cross(a, b))
  {
    Distribute(k, a.y, b.z, a.z, b.y);
    Distribute(k, a.z, b.x, a.x, b.z);
    Distribute(k, a.x, b.y, a.y, b.x);
    var l, r := Cross(a, Scale(k, b)), Scale(k, Cross(a, b));
    assert l.x == r.x && l.y == r.y && l.z == r.z;
  }

  /** One component of a cross product with a scaled argument. */
  lemma Distribute(k: real, p: real, q: real, r: real, s: real)
    ensures p * (k * q) - r * (k * s) == k * (p * q - r * s)
  {
  }

  /** The cross product is orthogonal to both of its arguments. */
  lemma CrossOrthogonal(a: Vec3, b: Vec3)
    ensures Dot(Cross(a, b), a) == 0.0
    ensures Dot(Cross(a, b), b) == 0.0
  {
  }

  /** Lagrange's identity: |a x b|^2 = |a|^2 |b|^2 - (a . b)^2. */
  lemma Lagrange(a: Vec3, b: Vec3)
    ensures LengthSquared(Cross(a, b)) == LengthSquared(a) * LengthSquared(b) - Dot(a, b) * Dot(a, b)
  {
  }

  /** Two unit vectors have a dot product in [-1, 1]. */
  lemma UnitDotBounded(a: Vec3, b: Vec3)
    requires LengthSquared(a) == 1.0 && LengthSquared(b) == 1.0
    ensures -1.0 <= Dot(a, b) <= 1.0
  {
    LengthSquaredNonNegative(Add(a, b));
    LengthSquaredNonNegative(Sub(a, b));
    assert LengthSquared(Add(a, b)) == 2.0 + 2.0 * Dot(a, b);
    assert LengthSquared(Sub(a, b)) == 2.0 - 2.0 * Dot(a, b);
  }

  /** A component of a unit vector lies in [-1, 1]. */
  lemma UnitComponentBounded(u: Vec3)
    requires LengthSquared(u) == 1.0
    ensures -1.0 <= u.y <= 1.0
  {
    SquareNonNegative(u.x);
    SquareNonNegative(u.z);
    assert Sq(u.y) <= 1.0;
    if 1.0 < u.y {
      SquareStrictlyMonotone(1.0, u.y);
    } else if u.y < -1.0 {
      SquareStrictlyMonotone(1.0, -u.y);
    }
  }

  /** Reflection about a unit normal keeps the length of the vector and
      flips the sign of its component along the normal. */
  lemma ReflectProperties(v: Vec3, n: Vec3)
    requires LengthSquared(n) == 1.0
    ensures LengthSquared(Reflect(v, n)) == LengthSquared(v)
    ensures Dot(Reflect(v, n), n) == -Dot(v, n)
  {
    var d := Dot(v, n);
    var k := 2.0 * d;
    var w := Scale(k, n);
    SubExpansion(v, w, n);
    LengthSquaredScale(k, n);
    DotScaleRight(k, v, n);
    DotScaleLeft(k, n, n);
    DotNegated(n, n);
    ReflectArithmetic(LengthSquared(v), d, k, Dot(v, w), LengthSquared(w), Dot(w, n));
  }

  /** Squared length of a difference, and its component along `n`. */
  lemma SubExpansion(v: Vec3, w: Vec3, n: Vec3)
    ensures LengthSquared(Sub(v, w)) == LengthSquared(v) - 2.0 * Dot(v, w) + LengthSquared(w)
    ensures Dot(Sub(v, w), n) == Dot(v, n) - Dot(w, n)
  {
  }

  lemma ReflectArithmetic(lv: real, d: real, k: real, vw: real, ww: real, wn: real)
    requires k == 2.0 * d && vw == k * d && ww == k * k * 1.0 && wn == k * 1.0
    ensures lv - 2.0 * vw + ww == lv
    ensures d - wn == -d
  {
  }
}
