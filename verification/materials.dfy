/** Materials and how they scatter an incoming ray (RTIOW/libs/material.h).

    `scatter` writes an attenuation and a scattered ray and answers whether
    the ray goes on at all.  The random draws it makes are parameters: the
    vector `random_unit_vector()` returned (used by the diffuse and metal
    surfaces) and the number `random_double()` returned (used by glass). */
module Materials {
  import opened Common
  import opened Vectors
  import opened Rays
  import opened Hittable

  datatype Material =
    | Lambertian(albedo: Color)
    | Metal(albedo: Color, fuzz: real)
    | Dielectric(ir: real)

  /** The constructor of `metal` caps the fuzz radius at 1. */
  function NewMetal(albedo: Color, fuzz: real): (mat: Material)
    ensures mat.Metal? && mat.albedo == albedo
    ensures mat.fuzz <= 1.0
    ensures mat.fuzz == fuzz || mat.fuzz == 1.0
    ensures fuzz <= 1.0 <==> mat.fuzz == fuzz
  {
    Metal(albedo, Min(fuzz, 1.0))
  }

  /** The outputs of `scatter`: its boolean answer and the two values it
      writes through its reference parameters. */
  datatype ScatterResult = ScatterResult(scattered: bool, attenuation: Color, ray: Ray)

  /** The random values one call of `scatter` consumes. */
  datatype ScatterDraw = ScatterDraw(unitVector: Vec3, u: real)

  /** The inputs `scatter` can work with: metal and glass normalise the
      incoming direction, which must therefore be non-zero, and glass
      divides by its index and by one plus the refraction ratio, which must
      therefore differ from 0 and -1. */
  predicate CanScatter(mat: Material, rIn: Ray) {
    match mat
    case Lambertian(_) => true
    case Metal(_, _) => 0.0 < LengthSquared(rIn.direction)
    case Dielectric(ir) => 0.0 < LengthSquared(rIn.direction) && ir != 0.0 && ir != -1.0
  }

  /** `material::scatter`, dispatched on the variant. */
  function Scatter(m: MathLib, mat: Material, rIn: Ray, rec: HitRecord<Material>, draw: ScatterDraw): (res: ScatterResult)
    requires Lawful(m) && CanScatter(mat, rIn)
    ensures res.ray.origin == rec.p
    ensures !mat.Metal? ==> res.scattered
    ensures mat.Lambertian? || mat.Metal? ==> res.attenuation == mat.albedo
    ensures mat.Dielectric? ==> res.attenuation == Vec3(1.0, 1.0, 1.0)
  {
    match mat
    case Lambertian(albedo) => LambertianScatter(albedo, rec, draw.unitVector)
    case Metal(albedo, fuzz) => MetalScatter(m, albedo, fuzz, rIn, rec, draw.unitVector)
    case Dielectric(ir) => DielectricScatter(m, ir, rIn, rec, draw.u)
  }

  /** `lambertian::scatter`: the new direction is the normal plus a random
      unit vector, or the normal itself when that sum is nearly zero, so a
      non-zero normal always yields a non-zero direction. */
  function LambertianScatter(albedo: Color, rec: HitRecord<Material>, unitDraw: Vec3): (res: ScatterResult)
    ensures res.scattered && res.attenuation == albedo && res.ray.origin == rec.p
    ensures NearZero(Add(rec.normal, unitDraw)) ==> res.ray.direction == rec.normal
    ensures !NearZero(Add(rec.normal, unitDraw)) ==> res.ray.direction == Add(rec.normal, unitDraw)
    ensures rec.normal != Zero ==> res.ray.direction != Zero
  {
    var direction := Add(rec.normal, unitDraw);
    var scatterDirection := if NearZero(direction) then rec.normal else direction;
    ScatterResult(true, albedo, Ray(rec.p, scatterDirection))
  }

  /** `metal::scatter`: the mirror reflection of the unit incoming direction,
      perturbed by `fuzz` times a random unit vector; the ray is absorbed
      when the result points into the surface. */
  function MetalScatter(m: MathLib, albedo: Color, fuzz: real, rIn: Ray, rec: HitRecord<Material>, unitDraw: Vec3): (res: ScatterResult)
    requires Lawful(m) && 0.0 < LengthSquared(rIn.direction)
    ensures res.attenuation == albedo && res.ray.origin == rec.p
    ensures res.ray.direction == Add(Reflect(UnitVector(m, rIn.direction), rec.normal), Scale(fuzz, unitDraw))
    ensures res.scattered <==> 0.0 < Dot(res.ray.direction, rec.normal)
  {
    var reflected := Reflect(UnitVector(m, rIn.direction), rec.normal);
    var scattered := Ray(rec.p, Add(reflected, Scale(fuzz, unitDraw)));
    ScatterResult(0.0 < Dot(scattered.direction, rec.normal), albedo, scattered)
  }

  /** `dielectric::scatter`: glass always lets the ray go on, unattenuated.
      It reflects when Snell's law has no solution (total internal
      reflection) or when the draw falls below the Schlick reflectance, and
      refracts otherwise. */
  function DielectricScatter(m: MathLib, ir: real, rIn: Ray, rec: HitRecord<Material>, u: real): (res: ScatterResult)
    requires Lawful(m) && 0.0 < LengthSquared(rIn.direction) && ir != 0.0 && ir != -1.0
    ensures res.scattered && res.attenuation == Vec3(1.0, 1.0, 1.0) && res.ray.origin == rec.p
    ensures var unitDirection := UnitVector(m, rIn.direction);
      var ratio := RefractionRatio(ir, rec.frontFace);
      && (CannotRefract(m, unitDirection, rec.normal, ratio, u) ==>
            res.ray.direction == Reflect(unitDirection, rec.normal))
      && (!CannotRefract(m, unitDirection, rec.normal, ratio, u) ==>
            res.ray.direction == Refract(m, unitDirection, rec.normal, ratio))
  {
    var unitDirection := UnitVector(m, rIn.direction);
    var ratio := RefractionRatio(ir, rec.frontFace);
    var direction :=
      if CannotRefract(m, unitDirection, rec.normal, ratio, u)
      then Reflect(unitDirection, rec.normal)
      else Refract(m, unitDirection, rec.normal, ratio);
    ScatterResult(true, Vec3(1.0, 1.0, 1.0), Ray(rec.p, direction))
  }

  /** The ratio of refractive indices across the surface: entering glass from
      the air (front face) it is `1/ir`, leaving it is `ir`. */
  function RefractionRatio(ir: real, frontFace: bool): (ratio: real)
    requires ir != 0.0
    ensures ratio * (if frontFace then ir else 1.0 / ir) == 1.0
    ensures 0.0 < ir ==> 0.0 < ratio
  {
    if frontFace then 1.0 / ir else ir
  }

  function SinTheta(m: MathLib, unitDirection: Vec3, normal: Vec3): real {
    var c := CosTheta(unitDirection, normal);
    m.sqrt(1.0 - Sq(c))
  }

  /** Snell's law has no solution: `ratio * sin > 1`. */
  predicate NoRefractedRay(ratio: real, sinTheta: real) {
    ratio * sinTheta > 1.0
  }

  /** The glass reflects: no refracted ray exists, or the reflectance
      exceeds the draw.  Both terms are evaluated, as the source's `|=`
      does, so the draw is consumed either way.  Total internal reflection
      reflects whatever the draw; otherwise, for a positive ratio and a
      cosine in [0, 1], a draw below `r0` always reflects and a draw of 1 or
      more never does. */
  predicate CannotRefract(m: MathLib, unitDirection: Vec3, normal: Vec3, ratio: real, u: real): (b: bool)
    requires ratio != -1.0
    ensures NoRefractedRay(ratio, SinTheta(m, unitDirection, normal)) ==> b
    ensures var c := CosTheta(unitDirection, normal);
      0.0 < ratio && 0.0 <= c <= 1.0 ==>
        && (u < R0(ratio) ==> b)
        && (1.0 <= u && !NoRefractedRay(ratio, SinTheta(m, unitDirection, normal)) ==> !b)
  {
    var c := CosTheta(unitDirection, normal);
    NoRefractedRay(ratio, SinTheta(m, unitDirection, normal)) || Reflectance(c, ratio) > u
  }

  // -----------------------------------------------------------------------
  // Schlick's approximation.

  /** `x^n` for a natural exponent. */
  function Pow(x: real, n: nat): real {
    if n == 0 then 1.0 else x * Pow(x, n - 1)
  }

  /** `r0`, the reflectance at normal incidence. */
  function R0(refIdx: real): real
    requires refIdx != -1.0
  {
    Sq((1.0 - refIdx) / (1.0 + refIdx))
  }

  /** `reflectance(cosine, ref_idx)`: Schlick's approximation, the
      reflectance at normal incidence `r0` plus `(1 - r0) (1 - cosine)^5`.
      It is `r0` at normal incidence, 1 at grazing incidence, and in between
      it lies in [r0, 1]. */
  function Reflectance(cosine: real, refIdx: real): (r: real)
    requires refIdx != -1.0
    ensures cosine == 1.0 ==> r == R0(refIdx)
    ensures cosine == 0.0 ==> r == 1.0
    ensures 0.0 < refIdx && 0.0 <= cosine <= 1.0 ==> R0(refIdx) <= r <= 1.0
  {
    var r0 := R0(refIdx);
    var p := Pow(1.0 - cosine, 5);
    assert cosine == 1.0 ==> p == 0.0 by {
      if cosine == 1.0 {
        assert Pow(0.0, 5) == 0.0;
      }
    }
    assert cosine == 0.0 ==> p == 1.0 by {
      if cosine == 0.0 {
        assert Pow(1.0, 5) == 1.0;
      }
    }
    assert 0.0 < refIdx && 0.0 <= cosine <= 1.0 ==> r0 <= r0 + (1.0 - r0) * p <= 1.0 by {
      if 0.0 < refIdx && 0.0 <= cosine <= 1.0 {
        R0Bounds(refIdx);
        PowUnitInterval(1.0 - cosine, 5);
        Between(r0, p);
      }
    }
    r0 + (1.0 - r0) * p
  }

  /** Moving a fraction `p` of the way from `r0` towards 1 stays in [r0, 1]. */
  lemma Between(r0: real, p: real)
    requires 0.0 <= r0 <= 1.0 && 0.0 <= p <= 1.0
    ensures r0 <= r0 + (1.0 - r0) * p <= 1.0
  {
    MulNonNegative(1.0 - r0, p);
    MulMonotone(1.0 - r0, p, 1.0);
  }

  /** Powers of a number in [0, 1] stay in [0, 1]. */
  lemma {:induction false} PowUnitInterval(x: real, n: nat)
    requires 0.0 <= x <= 1.0
    ensures 0.0 <= Pow(x, n) <= 1.0
  {
    if n > 0 {
      PowUnitInterval(x, n - 1);
      MulAtMostOne(x, Pow(x, n - 1));
    }
  }

  /** For a positive index, `r0` lies in [0, 1). */
  lemma R0Bounds(refIdx: real)
    requires 0.0 < refIdx
    ensures 0.0 <= R0(refIdx) < 1.0
  {
    var q := (1.0 - refIdx) / (1.0 + refIdx);
    assert -1.0 < q < 1.0 by {
      assert q * (1.0 + refIdx) == 1.0 - refIdx;
    }
    SquareNonNegative(q);
    if 0.0 <= q {
      assert q * q <= q * 1.0;
    } else {
      assert q * q <= (-q) * 1.0;
    }
  }

  /** `r0` is the same from either side of an interface: it depends on the
      ratio of indices only up to taking the reciprocal. */
  lemma R0Reciprocal(refIdx: real)
    requires refIdx != 0.0 && refIdx != -1.0
    ensures 1.0 / refIdx != -1.0
    ensures R0(1.0 / refIdx) == R0(refIdx)
  {
    var k := 1.0 / refIdx;
    var q := (1.0 - refIdx) / (1.0 + refIdx);
    var q' := (1.0 - k) / (1.0 + k);
    assert k * refIdx == 1.0;
    assert 1.0 + k != 0.0;
    assert q' == -q by {
      assert (1.0 - k) * refIdx == refIdx - 1.0;
      assert (1.0 + k) * refIdx == refIdx + 1.0;
      assert q' * (1.0 + k) == 1.0 - k;
      assert q * (1.0 + refIdx) == 1.0 - refIdx;
    }
  }

  // -----------------------------------------------------------------------
  // Properties of the scatter rules.

  /** A perfect mirror (fuzz 0) ignores the random vector, reflects the unit
      incoming direction, and keeps the ray exactly when it arrives against
      the unit normal, which the hit record's face normal guarantees unless
      the ray grazes the surface. */
  lemma MirrorMetal(m: MathLib, albedo: Color, rIn: Ray, rec: HitRecord<Material>, unitDraw: Vec3)
    requires Lawful(m) && 0.0 < LengthSquared(rIn.direction)
    requires LengthSquared(rec.normal) == 1.0
    ensures var res := MetalScatter(m, albedo, 0.0, rIn, rec, unitDraw);
      && res.ray.direction == Reflect(UnitVector(m, rIn.direction), rec.normal)
      && (res.scattered <==> Dot(rIn.direction, rec.normal) < 0.0)
  {
    var ud := UnitVector(m, rIn.direction);
    var reflected := Reflect(ud, rec.normal);
    assert Add(reflected, Scale(0.0, unitDraw)) == reflected;
    ReflectProperties(ud, rec.normal);
    UnitDirectionSign(m, rIn.direction, rec.normal);
  }

  /** Normalising a direction keeps the sign of its dot product with any
      vector. */
  lemma UnitDirectionSign(m: MathLib, v: Vec3, n: Vec3)
    requires Lawful(m) && 0.0 < LengthSquared(v)
    ensures Dot(UnitVector(m, v), n) < 0.0 <==> Dot(v, n) < 0.0
  {
    var len := Length(m, v);
    SqrtPositive(m, LengthSquared(v));
    var k := 1.0 / len;
    assert UnitVector(m, v) == Scale(k, v);
    DotScaleLeft(k, v, n);
    var d := Dot(v, n);
    if d < 0.0 {
      assert k * d < 0.0;
    } else {
      assert 0.0 <= k * d;
    }
  }

  /** When Snell's law has no solution the glass reflects, whatever the
      draw. */
  lemma TotalInternalReflection(m: MathLib, ir: real, rIn: Ray, rec: HitRecord<Material>, u: real)
    requires Lawful(m) && 0.0 < LengthSquared(rIn.direction) && ir != 0.0 && ir != -1.0
    requires var ud := UnitVector(m, rIn.direction);
      NoRefractedRay(RefractionRatio(ir, rec.frontFace), SinTheta(m, ud, rec.normal))
    ensures DielectricScatter(m, ir, rIn, rec, u).ray.direction
         == Reflect(UnitVector(m, rIn.direction), rec.normal)
  {
  }

  /** A ray meeting glass of index 1.5 head on from the air (unit direction
      exactly opposite the unit normal) is reflected only when the draw is
      below 0.04 = ((1 - 1/1.5) / (1 + 1/1.5))^2, and passes straight through
      otherwise. */
  lemma HeadOnGlass(m: MathLib, rIn: Ray, rec: HitRecord<Material>, u: real)
    requires Lawful(m)
    requires LengthSquared(rIn.direction) == 1.0 && rec.normal == Neg(rIn.direction)
    requires rec.frontFace
    ensures var res := DielectricScatter(m, 1.5, rIn, rec, u);
      && (u < 0.04 ==> res.ray.direction == Reflect(rIn.direction, rec.normal))
      && (0.04 <= u ==> res.ray.direction == rIn.direction)
  {
    var d := rIn.direction;
    UnitVectorOfUnit(m, d);
    assert RefractionRatio(1.5, true) == 2.0 / 3.0;
    HeadOnTest(m, d, u);
    if 0.04 <= u {
      HeadOnRefraction(m, d, 2.0 / 3.0);
    }
  }

  /** At normal incidence on glass of index 1.5, entered from the air, the
      refraction test fails exactly when the draw is below 0.04. */
  lemma HeadOnTest(m: MathLib, d: Vec3, u: real)
    requires Lawful(m) && LengthSquared(d) == 1.0
    ensures CannotRefract(m, d, Neg(d), 2.0 / 3.0, u) <==> u < 0.04
  {
    var n := Neg(d);
    assert Dot(Neg(d), n) == 1.0;
    assert CosTheta(d, n) == 1.0;
    SqrtUnique(m, 0.0, 0.0);
    assert SinTheta(m, d, n) == 0.0;
    assert R0(2.0 / 3.0) == 0.04;
    assert Pow(0.0, 5) == 0.0;
    assert Reflectance(1.0, 2.0 / 3.0) == 0.04;
  }


  /** At normal incidence the refracted ray goes straight on. */
  lemma HeadOnRefraction(m: MathLib, d: Vec3, ratio: real)
    requires Lawful(m) && LengthSquared(d) == 1.0
    ensures Refract(m, d, Neg(d), ratio) == d
  {
    var n := Neg(d);
    var perp := RefractPerp(d, n, ratio);
    HeadOnPerpendicular(d, ratio);
    SqrtUnique(m, 1.0, 1.0);
    LengthSquaredZero();
    ParallelOfUnitRoot(m, perp, n);
    NegNeg(d);
    AddZeroLeft(perp, RefractParallel(m, perp, n));
  }

  lemma HeadOnPerpendicular(d: Vec3, ratio: real)
    requires LengthSquared(d) == 1.0
    ensures RefractPerp(d, Neg(d), ratio) == Vec3(0.0, 0.0, 0.0)
  {
    DotNegated(d, d);
    assert CosTheta(d, Neg(d)) == 1.0;
    assert Add(d, Scale(1.0, Neg(d))) == Vec3(0.0, 0.0, 0.0);
  }

  /** With no perpendicular part, the refracted ray runs along `-n`. */
  lemma ParallelOfUnitRoot(m: MathLib, perp: Vec3, n: Vec3)
    requires m.sqrt(1.0) == 1.0 && LengthSquared(perp) == 0.0
    ensures RefractParallel(m, perp, n) == Neg(n)
  {
    ScaleMinusOne(-m.sqrt(Abs(1.0 - LengthSquared(perp))), n);
  }

  /** Glass turns a ray into a ray of unit direction: both the reflection
      and the refraction of the unit incoming direction about a unit normal
      have length one, for a positive index. */
  lemma DielectricUnitDirection(m: MathLib, ir: real, rIn: Ray, rec: HitRecord<Material>, u: real)
    requires Lawful(m) && 0.0 < LengthSquared(rIn.direction) && 0.0 < ir
    requires LengthSquared(rec.normal) == 1.0
    ensures LengthSquared(DielectricScatter(m, ir, rIn, rec, u).ray.direction) == 1.0
  {
    var ud := UnitVector(m, rIn.direction);
    var ratio := RefractionRatio(ir, rec.frontFace);
    if CannotRefract(m, ud, rec.normal, ratio, u) {
      ReflectProperties(ud, rec.normal);
    } else {
      RefractUnit(m, ud, rec.normal, ratio);
    }
  }

  /** Refraction of a unit vector about a unit normal, when Snell's law has a
      solution (`ratio * sin <= 1`), yields a unit vector: the perpendicular
      part has squared length `(ratio sin)^2` and the parallel part makes up
      the rest. */
  lemma RefractUnit(m: MathLib, uv: Vec3, n: Vec3, ratio: real)
    requires Lawful(m) && 0.0 < ratio
    requires LengthSquared(uv) == 1.0 && LengthSquared(n) == 1.0
    requires !NoRefractedRay(ratio, SinTheta(m, uv, n))
    ensures LengthSquared(Refract(m, uv, n, ratio)) == 1.0
  {
    PerpLength(m, uv, n, ratio);
    ParallelPart(m, RefractPerp(uv, n, ratio), n);
  }

  /** The part of a unit vector perpendicular to a unit normal: it is
      orthogonal to the normal and has squared length `1 - cos^2`. */
  lemma PerpendicularPart(uv: Vec3, n: Vec3)
    requires LengthSquared(uv) == 1.0 && LengthSquared(n) == 1.0
    ensures var c := CosTheta(uv, n);
      && -1.0 <= c <= 1.0
      && Dot(Add(uv, Scale(c, n)), n) == 0.0
      && LengthSquared(Add(uv, Scale(c, n))) == 1.0 - Sq(c)
  {
    CosineOfUnits(uv, n);
    var c := CosTheta(uv, n);
    AddScaledExpansion(uv, c, n);
    CosineCancels(c, Dot(uv, n));
  }

  /** For unit vectors the cap at 1 never applies. */
  lemma CosineOfUnits(uv: Vec3, n: Vec3)
    requires LengthSquared(uv) == 1.0 && LengthSquared(n) == 1.0
    ensures -1.0 <= CosTheta(uv, n) <= 1.0
    ensures CosTheta(uv, n) == -Dot(uv, n)
  {
    UnitDotBounded(uv, n);
  }

  lemma CosineCancels(c: real, d: real)
    requires c == -d
    ensures 1.0 + 2.0 * c * d + Sq(c) * 1.0 == 1.0 - Sq(c)
    ensures d + c * 1.0 == 0.0
  {
  }

  /** `sin = sqrt(1 - cos^2)` is a genuine sine for a cosine in [-1, 1]. */
  lemma SineOfCosine(m: MathLib, c: real)
    requires Lawful(m) && -1.0 <= c <= 1.0
    ensures var s := m.sqrt(1.0 - Sq(c)); 0.0 <= s && s * s == 1.0 - Sq(c)
  {
    UnitSquareBound(c);
  }

  /** The perpendicular part scaled by the ratio has squared length
      `(ratio sin)^2`, at most 1 when Snell's law has a solution. */
  lemma PerpLength(m: MathLib, uv: Vec3, n: Vec3, ratio: real)
    requires Lawful(m) && 0.0 < ratio
    requires LengthSquared(uv) == 1.0 && LengthSquared(n) == 1.0
    requires !NoRefractedRay(ratio, SinTheta(m, uv, n))
    ensures var perp := RefractPerp(uv, n, ratio);
      Dot(perp, n) == 0.0 && 0.0 <= LengthSquared(perp) <= 1.0
  {
    var c := CosTheta(uv, n);
    PerpendicularPart(uv, n);
    SineOfCosine(m, c);
    ScaledPerp(ratio, Add(uv, Scale(c, n)), n, SinTheta(m, uv, n), 1.0 - Sq(c), RefractPerp(uv, n, ratio));
  }

  lemma ScaledPerp(ratio: real, w: Vec3, n: Vec3, s: real, q: real, perp: Vec3)
    requires 0.0 < ratio && 0.0 <= s && !NoRefractedRay(ratio, s)
    requires Dot(w, n) == 0.0 && LengthSquared(w) == q && s * s == q
    requires perp == Scale(ratio, w)
    ensures Dot(perp, n) == 0.0
    ensures 0.0 <= LengthSquared(perp) <= 1.0
  {
    LengthSquaredScale(ratio, w);
    DotScaleLeft(ratio, w, n);
    LengthSquaredNonNegative(perp);
    ProductSquareBound(ratio, s);
  }

  lemma ProductSquareBound(a: real, b: real)
    requires 0.0 <= a * b <= 1.0
    ensures a * a * (b * b) <= 1.0
  {
    var p := a * b;
    MulAtMostOne(p, p);
    assert p * p == a * a * (b * b);
  }

  /** Adding the parallel part `-sqrt(1 - |perp|^2) n` to a perpendicular
      part of squared length at most 1 gives a unit vector. */
  lemma ParallelPart(m: MathLib, perp: Vec3, n: Vec3)
    requires Lawful(m) && LengthSquared(n) == 1.0
    requires Dot(perp, n) == 0.0 && 0.0 <= LengthSquared(perp) <= 1.0
    ensures LengthSquared(Add(perp, RefractParallel(m, perp, n))) == 1.0
  {
    var k := 1.0 - LengthSquared(perp);
    assert Abs(1.0 - LengthSquared(perp)) == k;
    var root := m.sqrt(k);
    assert root * root == k;
    AddOrthogonal(perp, -root, n);
    SquareNegated(root);
  }

  lemma UnitSquareBound(c: real)
    requires -1.0 <= c <= 1.0
    ensures Sq(c) <= 1.0
  {
    if 0.0 <= c {
      MulMonotone(c, c, 1.0);
    } else {
      var d := -c;
      MulMonotone(d, d, 1.0);
      assert d * d <= 1.0;
      assert Sq(c) == Sq(d);
    }
  }
}
