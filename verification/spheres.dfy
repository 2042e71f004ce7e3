/** Ray-sphere intersection (RTIOW/libs/sphere.h).

    A point `at(t)` of the ray lies on the sphere when
    `|origin + t*direction - center|^2 = radius^2`, a quadratic in `t` whose
    coefficients are written with `half_b` (half the linear coefficient).
    `hit` reports the nearer root if it lies strictly inside the parameter
    interval, else the farther root if that one does, else no hit. */
module Spheres {
  import opened Common
  import opened Vectors
  import opened Intervals
  import opened Rays
  import opened Hittable

  datatype Sphere<M> = Sphere(center: Point3, radius: real, mat: M)

  /** `a t^2 + 2 halfB t + c = 0` */
  datatype Quadratic = Quadratic(a: real, halfB: real, c: real) {
    function Discriminant(): real {
      Sq(halfB) - a * c
    }

    /** The value of the polynomial at `t`. */
    function Eval(t: real): real {
      a * Sq(t) + 2.0 * halfB * t + c
    }
  }

  /** The quadratic whose roots are the ray parameters of the intersections. */
  function Coefficients<M>(s: Sphere<M>, r: Ray): Quadratic {
    var oc := Sub(r.origin, s.center);
    Quadratic(LengthSquared(r.direction), Dot(oc, r.direction), LengthSquared(oc) - Sq(s.radius))
  }

  /** `p` lies on the surface of `s`. */
  predicate OnSphere<M>(s: Sphere<M>, p: Point3) {
    LengthSquared(Sub(p, s.center)) == Sq(s.radius)
  }

  /** The two candidate roots, nearer first. */
  function NearRoot(m: MathLib, q: Quadratic): real
    requires q.a != 0.0
  {
    (-q.halfB - m.sqrt(q.Discriminant())) / q.a
  }

  function FarRoot(m: MathLib, q: Quadratic): real
    requires q.a != 0.0
  {
    (-q.halfB + m.sqrt(q.Discriminant())) / q.a
  }

  /** `sphere::hit`.  `None` is the source's `false` result, in which case
      the caller's record is left as it was.

      A zero direction makes `a` zero; the source then divides zero by zero,
      and the resulting NaN is surrounded by no interval, so it reports no
      hit, which the model states directly. */
  function Hit<M>(m: MathLib, s: Sphere<M>, r: Ray, rayT: Interval): (res: Option<HitRecord<M>>)
    requires s.radius != 0.0
    ensures Coefficients(s, r).Discriminant() < 0.0 ==> res.None?
    ensures Coefficients(s, r).a == 0.0 ==> res.None?
    ensures res.Some? ==> rayT.Surrounds(res.value.t)
    ensures res.Some? ==> res.value.p == At(r, res.value.t) && res.value.mat == s.mat
    ensures res.Some? ==> Dot(r.direction, res.value.normal) <= 0.0
    ensures res.Some? ==>
      var outward := Div(Sub(res.value.p, s.center), s.radius);
      && (res.value.frontFace <==> Dot(r.direction, outward) < 0.0)
      && (res.value.normal == if res.value.frontFace then outward else Neg(outward))
    ensures
      var q := Coefficients(s, r);
      q.a != 0.0 && 0.0 <= q.Discriminant() ==>
        if rayT.Surrounds(NearRoot(m, q)) then res.Some? && res.value.t == NearRoot(m, q)
        else if rayT.Surrounds(FarRoot(m, q)) then res.Some? && res.value.t == FarRoot(m, q)
        else res.None?
  {
    var q := Coefficients(s, r);
    var discriminant := q.Discriminant();
    if discriminant < 0.0 || q.a == 0.0 then
      None
    else
      var near := NearRoot(m, q);
      var far := FarRoot(m, q);
      if !rayT.Surrounds(near) && !rayT.Surrounds(far) then
        None
      else
        var root := if rayT.Surrounds(near) then near else far;
        var p := At(r, root);
        var outward := Div(Sub(p, s.center), s.radius);
        Some(SetFaceNormal(HitRecord(p, outward, s.mat, root, false), r, outward))
  }

  // -----------------------------------------------------------------------
  // The quadratic really describes the intersections.

  /** The squared distance from the centre along the ray, minus the squared
      radius, is the quadratic evaluated at `t`. */
  lemma QuadraticDescribesDistance<M>(s: Sphere<M>, r: Ray, t: real)
    ensures LengthSquared(Sub(At(r, t), s.center)) - Sq(s.radius) == Coefficients(s, r).Eval(t)
  {
    var oc := Sub(r.origin, s.center);
    var d := r.direction;
    assert Sub(At(r, t), s.center) == Add(oc, Scale(t, d));
    SquareOfSum(oc.x, t, d.x);
    SquareOfSum(oc.y, t, d.y);
    SquareOfSum(oc.z, t, d.z);
    var q := Coefficients(s, r);
    assert q.a * Sq(t) == Sq(t) * (Sq(d.x) + Sq(d.y) + Sq(d.z));
    assert 2.0 * q.halfB * t == 2.0 * t * (oc.x * d.x + oc.y * d.y + oc.z * d.z);
  }

  lemma SquareOfSum(o: real, t: real, d: real)
    ensures Sq(o + t * d) == Sq(o) + 2.0 * t * (o * d) + Sq(t) * Sq(d)
  {
  }

  /** For `a != 0`, the polynomial vanishes at `t` exactly when
      `(a t + halfB)^2` equals the discriminant. */
  lemma RootsByCompletingTheSquare(q: Quadratic, t: real)
    requires q.a != 0.0
    ensures q.Eval(t) == 0.0 <==> Sq(q.a * t + q.halfB) == q.Discriminant()
  {
    var e := q.Eval(t);
    assert Sq(q.a * t + q.halfB) - q.Discriminant() == q.a * e;
    if q.a * e == 0.0 {
      ProductZero(q.a, e);
    }
  }

  lemma ProductZero(a: real, b: real)
    requires a * b == 0.0
    ensures a == 0.0 || b == 0.0
  {
    if a != 0.0 {
      assert b == (a * b) * (1.0 / a);
    }
  }

  /** Two reals with the same square are equal or opposite. */
  lemma EqualSquares(u: real, v: real)
    requires Sq(u) == Sq(v)
    ensures u == v || u == -v
  {
    assert (u - v) * (u + v) == Sq(u) - Sq(v);
    ProductZero(u - v, u + v);
  }

  /** With a lawful square root, the two candidate roots satisfy
      `a t + halfB = -/+ sqrt(discriminant)`, so both are genuine roots, and
      for `a > 0` the near one is not larger than the far one. */
  lemma CandidateRoots(m: MathLib, q: Quadratic)
    requires Lawful(m)
    requires q.a != 0.0 && 0.0 <= q.Discriminant()
    ensures q.a * NearRoot(m, q) + q.halfB == -m.sqrt(q.Discriminant())
    ensures q.a * FarRoot(m, q) + q.halfB == m.sqrt(q.Discriminant())
    ensures q.Eval(NearRoot(m, q)) == 0.0 && q.Eval(FarRoot(m, q)) == 0.0
    ensures 0.0 < q.a ==> NearRoot(m, q) <= FarRoot(m, q)
  {
    CandidateValues(m, q);
    var sd := m.sqrt(q.Discriminant());
    var near, far := NearRoot(m, q), FarRoot(m, q);
    SqrtSquare(m, q.Discriminant());
    SquareNegated(sd);
    CandidateIsRoot(q, near, -sd);
    CandidateIsRoot(q, far, sd);
    if 0.0 < q.a {
      CandidateOrder(q.a, q.halfB, sd, near, far);
    }
  }

  lemma CandidateIsRoot(q: Quadratic, t: real, v: real)
    requires q.a != 0.0 && q.a * t + q.halfB == v && Sq(v) == q.Discriminant()
    ensures q.Eval(t) == 0.0
  {
    RootsByCompletingTheSquare(q, t);
  }

  lemma CandidateOrder(a: real, halfB: real, sd: real, near: real, far: real)
    requires 0.0 < a && 0.0 <= sd
    requires a * near + halfB == -sd && a * far + halfB == sd
    ensures near <= far
  {
    var gap := far - near;
    assert a * gap == 2.0 * sd;
    NonNegativeFactor(a, gap);
  }

  lemma NonNegativeFactor(a: real, g: real)
    requires 0.0 < a && 0.0 <= a * g
    ensures 0.0 <= g
  {
  }

  /** `a t + halfB` is `-sqrt(discriminant)` at the near candidate and
      `sqrt(discriminant)` at the far one. */
  lemma CandidateValues(m: MathLib, q: Quadratic)
    requires q.a != 0.0
    ensures q.a * NearRoot(m, q) + q.halfB == -m.sqrt(q.Discriminant())
    ensures q.a * FarRoot(m, q) + q.halfB == m.sqrt(q.Discriminant())
  {
    var sd := m.sqrt(q.Discriminant());
    assert q.a * NearRoot(m, q) == -q.halfB - sd;
    assert q.a * FarRoot(m, q) == -q.halfB + sd;
  }

  /** A root exists only where the discriminant is non-negative, and there
      `(a t + halfB)^2` equals it. */
  lemma RootSquare(q: Quadratic, t: real)
    requires q.a != 0.0 && q.Eval(t) == 0.0
    ensures Sq(q.a * t + q.halfB) == q.Discriminant()
    ensures 0.0 <= q.Discriminant()
  {
    RootsByCompletingTheSquare(q, t);
    SquareNonNegative(q.a * t + q.halfB);
  }

  /** Every root of the polynomial is one of the two candidates, and a root
      exists only when the discriminant is non-negative. */
  lemma OnlyCandidateRoots(m: MathLib, q: Quadratic, t: real)
    requires Lawful(m)
    requires q.a != 0.0 && q.Eval(t) == 0.0
    ensures 0.0 <= q.Discriminant()
    ensures t == NearRoot(m, q) || t == FarRoot(m, q)
  {
    RootSquare(q, t);
    CandidateValues(m, q);
    var sd := m.sqrt(q.Discriminant());
    SqrtSquare(m, q.Discriminant());
    EqualSquares(q.a * t + q.halfB, sd);
    MatchCandidate(q.a, q.halfB, t, sd, NearRoot(m, q), FarRoot(m, q));
  }

  /** A parameter whose value of `a t + halfB` is one of `-sd` and `sd` is the
      candidate root with that value. */
  lemma MatchCandidate(a: real, halfB: real, t: real, sd: real, near: real, far: real)
    requires a != 0.0 && a * near + halfB == -sd && a * far + halfB == sd
    requires a * t + halfB == sd || a * t + halfB == -sd
    ensures t == near || t == far
  {
    if a * t + halfB == sd {
      CancelFactor(a, t, far);
    } else {
      CancelFactor(a, t, near);
    }
  }

  lemma CancelFactor(a: real, x: real, y: real)
    requires a != 0.0 && a * x == a * y
    ensures x == y
  {
    assert a * (x - y) == 0.0;
    ProductZero(a, x - y);
  }

  /** A ray parameter names a point on the sphere exactly when it is a root
      of the quadratic. */
  lemma OnSphereIffRoot<M>(s: Sphere<M>, r: Ray, t: real)
    ensures OnSphere(s, At(r, t)) <==> Coefficients(s, r).Eval(t) == 0.0
  {
    QuadraticDescribesDistance(s, r, t);
  }

  // -----------------------------------------------------------------------
  // Properties of `hit`.

  /** The reported distance is a genuine intersection: the hit point lies on
      the sphere, and the stored normal has unit length. */
  lemma HitIsOnSphere<M>(m: MathLib, s: Sphere<M>, r: Ray, rayT: Interval)
    requires Lawful(m) && s.radius != 0.0
    requires Hit(m, s, r, rayT).Some?
    ensures OnSphere(s, Hit(m, s, r, rayT).value.p)
    ensures LengthSquared(Hit(m, s, r, rayT).value.normal) == 1.0
  {
    var rec := Hit(m, s, r, rayT).value;
    var q := Coefficients(s, r);
    CandidateRoots(m, q);
    OnSphereIffRoot(s, r, rec.t);
    UnitOutward(rec.p, s.center, s.radius);
    assert LengthSquared(Neg(Div(Sub(rec.p, s.center), s.radius))) == LengthSquared(Div(Sub(rec.p, s.center), s.radius));
  }

  /** Dividing the offset of a surface point by the radius gives a unit
      vector. */
  lemma UnitOutward(p: Point3, center: Point3, radius: real)
    requires radius != 0.0
    requires LengthSquared(Sub(p, center)) == Sq(radius)
    ensures LengthSquared(Div(Sub(p, center), radius)) == 1.0
  {
    var k := 1.0 / radius;
    LengthSquaredScale(k, Sub(p, center));
    var kk := k * k;
    var rr := radius * radius;
    assert kk * rr == (k * radius) * (k * radius);
    assert k * radius == 1.0;
  }

  /** `hit` finds the nearest intersection strictly inside the interval:
      it reports none exactly when no such intersection exists, and
      otherwise the reported distance is not larger than any of them.
      This needs a non-zero direction; for a zero one every parameter names
      the same point and the source reports no hit. */
  lemma HitIsNearest<M>(m: MathLib, s: Sphere<M>, r: Ray, rayT: Interval)
    requires Lawful(m) && s.radius != 0.0
    requires 0.0 < LengthSquared(r.direction)
    ensures Hit(m, s, r, rayT).None? <==>
      forall t :: rayT.Surrounds(t) ==> !OnSphere(s, At(r, t))
    ensures Hit(m, s, r, rayT).Some? ==>
      forall t :: rayT.Surrounds(t) && OnSphere(s, At(r, t)) ==> Hit(m, s, r, rayT).value.t <= t
  {
    var q := Coefficients(s, r);
    var res := Hit(m, s, r, rayT);
    forall t | rayT.Surrounds(t) && OnSphere(s, At(r, t))
      ensures res.Some? && res.value.t <= t
    {
      OnSphereIffRoot(s, r, t);
      OnlyCandidateRoots(m, q, t);
      CandidateRoots(m, q);
    }
    if res.Some? {
      HitIsOnSphere(m, s, r, rayT);
    }
  }

  /** Shrinking the upper end of the interval to `c` keeps the hit exactly
      when it lies below `c` and otherwise loses it; this is what lets the
      scene keep the closest hit by narrowing the interval. */
  lemma HitNarrowed<M>(m: MathLib, s: Sphere<M>, r: Ray, rayT: Interval, c: real)
    requires Lawful(m) && s.radius != 0.0
    requires Below(c, rayT.max)
    ensures var narrowed := Hit(m, s, r, Interval(rayT.min, Finite(c)));
      var full := Hit(m, s, r, rayT);
      narrowed == if full.Some? && full.value.t < c then full else None
  {
    var q := Coefficients(s, r);
    var narrowedT := Interval(rayT.min, Finite(c));
    if q.a != 0.0 && 0.0 <= q.Discriminant() {
      CandidateRoots(m, q);
      SurroundsNarrowed(rayT, c, NearRoot(m, q));
      SurroundsNarrowed(rayT, c, FarRoot(m, q));
    }
  }
}
