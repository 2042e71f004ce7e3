/** The shading and image-assembly half of the camera (RTIOW/libs/camera.h):
    `get_ray_color`, the per-pixel sample loop, and the two `render`
    variants, the stream writer that emits pixels row by row and the
    parallel one that fills a byte buffer from independent tasks.

    Every random value a pixel consumes is a parameter: the ray draw of each
    sample and, per sample, the scatter draw used at each remaining depth. */
module Rendering {
  import opened Common
  import opened Vectors
  import opened Intervals
  import opened Rays
  import opened Hittable
  import opened Materials
  import opened Colors
  import opened Cameras
  import HittableLists
  import Spheres

  // -----------------------------------------------------------------------
  // The scene.

  /** The interval every primary and secondary ray is queried over; the
      lower end 0.001 keeps a scattered ray from hitting the surface it
      leaves. */
  const SceneInterval: Interval := Interval(0.001, Infinity)

  /** The record `get_ray_color` declares before querying the world.  The
      source leaves it uninitialised; it is only read after a hit has
      overwritten it. */
  const Unset: HitRecord<Material> := HitRecord(Zero, Zero, Lambertian(Zero), 0.0, false)

  /** Glass with a positive index of refraction, and metal whose fuzz is at
      most 1, the cap the metal constructor applies (`NewMetal`); diffuse
      materials are unconstrained. */
  predicate ValidMaterial(mat: Material) {
    && (mat.Dielectric? ==> 0.0 < mat.ir)
    && (mat.Metal? ==> mat.fuzz <= 1.0)
  }

  /** Every sphere has a non-zero radius and a valid material. */
  predicate ValidWorld(world: HittableLists.HittableList<Material>) {
    && HittableLists.ValidObjects(world.objects)
    && forall k :: 0 <= k < |world.objects| ==> ValidMaterial(world.objects[k].mat)
  }

  predicate UnitColor(c: Color) {
    0.0 <= c.x <= 1.0 && 0.0 <= c.y <= 1.0 && 0.0 <= c.z <= 1.0
  }

  /** Every albedo is a reflectance in [0, 1] per channel. */
  predicate BoundedWorld(world: HittableLists.HittableList<Material>) {
    forall k :: 0 <= k < |world.objects| ==>
      match world.objects[k].mat
      case Lambertian(albedo) => UnitColor(albedo)
      case Metal(albedo, _) => UnitColor(albedo)
      case Dielectric(_) => true
  }

  /** The world query `get_ray_color` makes, over (0.001, infinity): it
      reports a hit exactly when some sphere is hit there, leaves the
      placeholder record alone on a miss, and otherwise returns the hit of
      the first sphere at the smallest distance. */
  function SceneHit(m: MathLib, world: HittableLists.HittableList<Material>, r: Ray): (st: HittableLists.Scan<Material>)
    requires Lawful(m) && ValidWorld(world)
    ensures st.hitAnything <==> HittableLists.AnyHit(m, world.objects, r, SceneInterval)
    ensures !st.hitAnything ==> st.rec == Unset
    ensures st.hitAnything ==> exists k :: HittableLists.FirstClosest(m, world.objects, r, SceneInterval, k, st.rec)
  {
    HittableLists.ScanFindsFirstClosest(m, world.objects, r, SceneInterval, Unset);
    HittableLists.ScanAll(m, world.objects, r, SceneInterval, Unset)
  }

  /** A reported hit carries the material of one of the spheres and a unit
      normal, and lies strictly beyond 0.001. */
  lemma SceneHitFacts(m: MathLib, world: HittableLists.HittableList<Material>, r: Ray)
    requires Lawful(m) && ValidWorld(world)
    ensures var st := SceneHit(m, world, r);
      st.hitAnything ==>
        && SceneInterval.Surrounds(st.rec.t)
        && LengthSquared(st.rec.normal) == 1.0
        && exists k :: 0 <= k < |world.objects| && st.rec.mat == world.objects[k].mat
  {
    var st := SceneHit(m, world, r);
    HittableLists.ScanFindsFirstClosest(m, world.objects, r, SceneInterval, Unset);
    if st.hitAnything {
      var k :| HittableLists.FirstClosest(m, world.objects, r, SceneInterval, k, st.rec);
      Spheres.HitIsOnSphere(m, world.objects[k], r, SceneInterval);
    }
  }

  /** At a surface with a unit normal, a valid material can always be asked
      to scatter a ray with a non-zero direction, and whenever it does
      scatter, the new direction is non-zero too, so the bounce can be
      traced further. */
  lemma ScatterKeepsDirection(m: MathLib, mat: Material, rIn: Ray, rec: HitRecord<Material>, draw: ScatterDraw)
    requires Lawful(m) && ValidMaterial(mat) && 0.0 < LengthSquared(rIn.direction)
    requires LengthSquared(rec.normal) == 1.0
    ensures CanScatter(mat, rIn)
    ensures var res := Scatter(m, mat, rIn, rec, draw);
      res.scattered ==> 0.0 < LengthSquared(res.ray.direction)
  {
    var res := Scatter(m, mat, rIn, rec, draw);
    match mat
    case Lambertian(_) =>
      LengthSquaredNonNegative(rec.normal);
      LengthSquaredNonNegative(res.ray.direction);
    case Metal(_, _) =>
      if res.scattered {
        NonZeroComponent(res.ray.direction, rec.normal);
      }
    case Dielectric(ir) =>
      DielectricUnitDirection(m, ir, rIn, rec, draw.u);
  }

  // -----------------------------------------------------------------------
  // Shading.

  /** The sky: a vertical blend from white (looking straight down) to light
      blue (0.5, 0.7, 1.0) (looking straight up). */
  function Background(m: MathLib, direction: Vec3): (c: Color)
    requires Lawful(m) && 0.0 < LengthSquared(direction)
    ensures 0.5 <= c.x <= 1.0 && 0.7 <= c.y <= 1.0 && c.z == 1.0
  {
    var unitDirection := UnitVector(m, direction);
    UnitComponentBounded(unitDirection);
    SkyBlend(unitDirection.y)
  }

  /** The blend for the vertical component `y` of a unit direction. */
  function SkyBlend(y: real): (c: Color)
    requires -1.0 <= y <= 1.0
    ensures 0.5 <= c.x <= 1.0 && 0.7 <= c.y <= 1.0 && c.z == 1.0
  {
    var a := 0.5 * (y + 1.0);
    Add(Scale(1.0 - a, Vec3(1.0, 1.0, 1.0)), Scale(a, Vec3(0.5, 0.7, 1.0)))
  }

  /** `get_ray_color`: black once the bounce budget is spent; otherwise the
      nearest hit's attenuation times the colour seen along the scattered
      ray, black when the surface absorbs the ray, and the sky when nothing
      is hit.  The bounce at remaining depth `d` uses `draws(d)`. */
  function RayColor(m: MathLib, world: HittableLists.HittableList<Material>, r: Ray, depth: int, draws: int -> ScatterDraw): (c: Color)
    requires Lawful(m) && ValidWorld(world) && 0.0 < LengthSquared(r.direction)
    ensures depth <= 0 ==> c == Zero
    decreases depth
  {
    if depth <= 0 then Zero
    else
      var st := SceneHit(m, world, r);
      if st.hitAnything then
        SceneHitFacts(m, world, r);
        ScatterKeepsDirection(m, st.rec.mat, r, st.rec, draws(depth));
        var res := Scatter(m, st.rec.mat, r, st.rec, draws(depth));
        if res.scattered then Mul(res.attenuation, RayColor(m, world, res.ray, depth - 1, draws))
        else Zero
      else Background(m, r.direction)
  }

  /** A ray that meets no sphere beyond 0.001 shows the sky, at any positive
      depth. */
  lemma MissShowsSky(m: MathLib, world: HittableLists.HittableList<Material>, r: Ray, depth: int, draws: int -> ScatterDraw)
    requires Lawful(m) && ValidWorld(world) && 0.0 < LengthSquared(r.direction) && 0 < depth
    requires forall k, t :: 0 <= k < |world.objects| && SceneInterval.Surrounds(t) ==>
      !Spheres.OnSphere(world.objects[k], At(r, t))
    ensures RayColor(m, world, r, depth, draws) == Background(m, r.direction)
  {
    HittableLists.ScanIsNearestInScene(m, world.objects, r, SceneInterval, Unset);
  }

  /** With a single bounce left, light arrives only straight from the sky: a
      ray that meets a sphere beyond 0.001 is black, any other shows the
      sky. */
  lemma DepthOneSeesOnlySky(m: MathLib, world: HittableLists.HittableList<Material>, r: Ray, draws: int -> ScatterDraw)
    requires Lawful(m) && ValidWorld(world) && 0.0 < LengthSquared(r.direction)
    ensures var c := RayColor(m, world, r, 1, draws);
      if exists k, t :: 0 <= k < |world.objects| && SceneInterval.Surrounds(t) && Spheres.OnSphere(world.objects[k], At(r, t))
      then c == Zero
      else c == Background(m, r.direction)
  {
    HittableLists.ScanIsNearestInScene(m, world.objects, r, SceneInterval, Unset);
    var st := SceneHit(m, world, r);
    if st.hitAnything {
      SceneHitFacts(m, world, r);
      ScatterKeepsDirection(m, st.rec.mat, r, st.rec, draws(1));
      var res := Scatter(m, st.rec.mat, r, st.rec, draws(1));
      if res.scattered {
        MulZero(res.attenuation);
      }
    }
  }

  /** One bounce of `get_ray_color` at a positive depth: a ray that meets
      some sphere beyond 0.001 is shaded at the nearest such point, where the
      material may scatter it.  An absorbed ray is black; a scattered one
      carries a non-zero direction and contributes the attenuation times the
      colour seen along it with one bounce fewer, using the draw reserved for
      this depth. */
  lemma RayColorBounce(m: MathLib, world: HittableLists.HittableList<Material>, r: Ray, depth: int, draws: int -> ScatterDraw)
    requires Lawful(m) && ValidWorld(world) && 0.0 < LengthSquared(r.direction) && 0 < depth
    ensures var st := SceneHit(m, world, r);
      && (st.hitAnything <==>
            exists k, t :: 0 <= k < |world.objects| && SceneInterval.Surrounds(t) && Spheres.OnSphere(world.objects[k], At(r, t)))
      && (st.hitAnything ==>
            && SceneInterval.Surrounds(st.rec.t) && st.rec.p == At(r, st.rec.t)
            && (forall k, t :: 0 <= k < |world.objects| && SceneInterval.Surrounds(t) && Spheres.OnSphere(world.objects[k], At(r, t)) ==>
                  st.rec.t <= t)
            && CanScatter(st.rec.mat, r))
  {
    HittableLists.ScanIsNearestInScene(m, world.objects, r, SceneInterval, Unset);
    SceneHitFacts(m, world, r);
    var st := SceneHit(m, world, r);
    if st.hitAnything {
      ScatterKeepsDirection(m, st.rec.mat, r, st.rec, draws(depth));
    }
  }

  /** The colour of a ray that hits the scene at a positive depth: black
      when the nearest surface absorbs the ray, and otherwise the surface's
      attenuation times the colour seen along the scattered ray, which has a
      non-zero direction, one bounce fewer. */
  lemma HitColor(m: MathLib, world: HittableLists.HittableList<Material>, r: Ray, depth: int, draws: int -> ScatterDraw)
    requires Lawful(m) && ValidWorld(world) && 0.0 < LengthSquared(r.direction) && 0 < depth
    requires SceneHit(m, world, r).hitAnything
    ensures var st := SceneHit(m, world, r);
      LengthSquared(st.rec.normal) == 1.0 && CanScatter(st.rec.mat, r) &&
      var res := Scatter(m, st.rec.mat, r, st.rec, draws(depth));
      && (!res.scattered ==> RayColor(m, world, r, depth, draws) == Zero)
      && (res.scattered ==>
            && 0.0 < LengthSquared(res.ray.direction)
            && RayColor(m, world, r, depth, draws) == Mul(res.attenuation, RayColor(m, world, res.ray, depth - 1, draws)))
  {
    SceneHitFacts(m, world, r);
    var st := SceneHit(m, world, r);
    ScatterKeepsDirection(m, st.rec.mat, r, st.rec, draws(depth));
  }

  lemma MulZero(a: Vec3)
    ensures Mul(a, Zero) == Zero
  {
  }

  /** When every albedo is a reflectance in [0, 1], no ray gathers more than
      full white: surfaces only absorb, and the sky is at most white. */
  lemma {:induction false} RayColorBounded(m: MathLib, world: HittableLists.HittableList<Material>, r: Ray, depth: int, draws: int -> ScatterDraw)
    requires Lawful(m) && ValidWorld(world) && BoundedWorld(world) && 0.0 < LengthSquared(r.direction)
    ensures UnitColor(RayColor(m, world, r, depth, draws))
    decreases depth
  {
    if 0 < depth {
      var st := SceneHit(m, world, r);
      if st.hitAnything {
        SceneHitFacts(m, world, r);
        var k :| 0 <= k < |world.objects| && st.rec.mat == world.objects[k].mat;
        ScatterKeepsDirection(m, st.rec.mat, r, st.rec, draws(depth));
        var res := Scatter(m, st.rec.mat, r, st.rec, draws(depth));
        if res.scattered {
          RayColorBounded(m, world, res.ray, depth - 1, draws);
          assert UnitColor(res.attenuation);
          AttenuateBounded(res.attenuation, RayColor(m, world, res.ray, depth - 1, draws));
        }
      }
    }
  }

  lemma AttenuateBounded(a: Color, c: Color)
    requires UnitColor(a) && UnitColor(c)
    ensures UnitColor(Mul(a, c))
  {
    MulAtMostOne(a.x, c.x);
    MulAtMostOne(a.y, c.y);
    MulAtMostOne(a.z, c.z);
  }

  /** Looking straight up shows light blue. */
  lemma SkyStraightUp(m: MathLib, k: real)
    requires Lawful(m) && 0.0 < k
    ensures 0.0 < LengthSquared(Vec3(0.0, k, 0.0))
    ensures Background(m, Vec3(0.0, k, 0.0)) == Vec3(0.5, 0.7, 1.0)
  {
    var d := Vec3(0.0, k, 0.0);
    UnitOfVertical(m, d, k);
    BackgroundOfUnitY(m, d, 1.0);
    SkyExtremes();
  }

  /** Looking straight down shows white. */
  lemma SkyStraightDown(m: MathLib, k: real)
    requires Lawful(m) && k < 0.0
    ensures 0.0 < LengthSquared(Vec3(0.0, k, 0.0))
    ensures Background(m, Vec3(0.0, k, 0.0)) == Vec3(1.0, 1.0, 1.0)
  {
    var d := Vec3(0.0, k, 0.0);
    UnitOfVertical(m, d, -k);
    BackgroundOfUnitY(m, d, -1.0);
    SkyExtremes();
  }

  /** The unit vector of a vertical direction of length `len`. */
  lemma UnitOfVertical(m: MathLib, d: Vec3, len: real)
    requires Lawful(m) && d.x == 0.0 && d.z == 0.0 && 0.0 < len && (d.y == len || d.y == -len)
    ensures 0.0 < LengthSquared(d)
    ensures UnitVector(m, d).y == d.y / len
  {
    assert Sq(len) == Sq(d.y);
    SquarePositive(len);
    SqrtUnique(m, LengthSquared(d), len);
    assert UnitVector(m, d) == Scale(1.0 / len, d);
  }

  lemma BackgroundOfUnitY(m: MathLib, d: Vec3, y: real)
    requires Lawful(m) && 0.0 < LengthSquared(d) && UnitVector(m, d).y == y
    ensures -1.0 <= y <= 1.0 && Background(m, d) == SkyBlend(y)
  {
    UnitComponentBounded(UnitVector(m, d));
  }

  lemma SkyExtremes()
    ensures SkyBlend(1.0) == Vec3(0.5, 0.7, 1.0)
    ensures SkyBlend(-1.0) == Vec3(1.0, 1.0, 1.0)
  {
    var a := 0.5 * (1.0 + 1.0);
    assert a == 1.0;
    assert Scale(1.0 - a, Vec3(1.0, 1.0, 1.0)) == Zero;
    assert Scale(a, Vec3(0.5, 0.7, 1.0)) == Vec3(0.5, 0.7, 1.0);
    var b := 0.5 * (-1.0 + 1.0);
    assert b == 0.0;
    assert Scale(1.0 - b, Vec3(1.0, 1.0, 1.0)) == Vec3(1.0, 1.0, 1.0);
    assert Scale(b, Vec3(0.5, 0.7, 1.0)) == Zero;
  }

  // -----------------------------------------------------------------------
  // Pixels.

  /** The random values one sample of a pixel consumes: the ray draw of
      `get_ray`, and the scatter draw used at each remaining depth. */
  datatype SampleDraw = SampleDraw(ray: RayDraw, bounces: int -> ScatterDraw)

  /** A camera whose rays all have a non-zero direction: it can be set up,
      and the plane of focus is not at the camera itself. */
  predicate Shootable(cam: Camera) {
    Renderable(cam) && cam.focusDistance != 0.0
  }

  /** Every camera ray of a shootable camera can be traced. */
  lemma CameraRayNonZero(m: MathLib, cam: Camera, i: int, j: int, draw: RayDraw)
    requires Lawful(m) && Shootable(cam)
    ensures 0.0 < LengthSquared(GetRay(Initialize(m, cam), cam, i, j, draw).direction)
  {
    var view := Initialize(m, cam);
    FocusPlane(m, cam, i, j, draw);
    NonZeroComponent(GetRay(view, cam, i, j, draw).direction, view.frame.w);
  }

  /** The colour one sample of pixel (i, j) gathers. */
  function SampleColor(m: MathLib, cam: Camera, world: HittableLists.HittableList<Material>, i: int, j: int, s: SampleDraw): Color
    requires Lawful(m) && Shootable(cam) && ValidWorld(world)
  {
    CameraRayNonZero(m, cam, i, j, s.ray);
    RayColor(m, world, GetRay(Initialize(m, cam), cam, i, j, s.ray), cam.maxDepth, s.bounces)
  }

  /** The colours of the samples of pixel (i, j), one per draw, in order. */
  function SampleColors(m: MathLib, cam: Camera, world: HittableLists.HittableList<Material>, i: int, j: int, samples: seq<SampleDraw>): (colors: seq<Color>)
    requires Lawful(m) && Shootable(cam) && ValidWorld(world)
    ensures |colors| == |samples|
    ensures forall s :: 0 <= s < |samples| ==> colors[s] == SampleColor(m, cam, world, i, j, samples[s])
    decreases |samples|
  {
    if |samples| == 0 then []
    else
      var n := |samples| - 1;
      SampleColors(m, cam, world, i, j, samples[..n]) + [SampleColor(m, cam, world, i, j, samples[n])]
  }

  /** What one pixel task computes: `samples_per_pixel` samples added up
      from black, then averaged and quantised by `write_color`.  The result
      is a mean: when every sample gathers the same colour, the pixel is that
      colour quantised. */
  function PixelColor(m: MathLib, cam: Camera, world: HittableLists.HittableList<Material>, i: int, j: int, samples: seq<SampleDraw>): (px: Rgb)
    requires Lawful(m) && Shootable(cam) && ValidWorld(world)
    requires 0 < cam.samplesPerPixel && |samples| == cam.samplesPerPixel
    ensures var colors := SampleColors(m, cam, world, i, j, samples);
      (forall s :: 0 <= s < |colors| ==> colors[s] == colors[0]) ==>
        px == Rgb(Quantize(colors[0].x), Quantize(colors[0].y), Quantize(colors[0].z))
  {
    var colors := SampleColors(m, cam, world, i, j, samples);
    assert (forall s :: 0 <= s < |colors| ==> colors[s] == colors[0]) ==>
      WriteColor(SumColors(colors), |colors|) == Rgb(Quantize(colors[0].x), Quantize(colors[0].y), Quantize(colors[0].z)) by {
      if forall s :: 0 <= s < |colors| ==> colors[s] == colors[0] {
        UniformSamplesAverage(colors, colors[0]);
      }
    }
    WriteColor(SumColors(colors), cam.samplesPerPixel)
  }

  /** With no bounces allowed, every pixel is black, whatever the scene and
      the draws. */
  lemma NoBouncesBlackImage(m: MathLib, cam: Camera, world: HittableLists.HittableList<Material>, i: int, j: int, samples: seq<SampleDraw>)
    requires Lawful(m) && Shootable(cam) && ValidWorld(world)
    requires 0 < cam.samplesPerPixel && |samples| == cam.samplesPerPixel
    requires cam.maxDepth <= 0
    ensures PixelColor(m, cam, world, i, j, samples) == Rgb(0, 0, 0)
  {
    var colors := SampleColors(m, cam, world, i, j, samples);
    assert forall s :: 0 <= s < |colors| ==> colors[s] == Zero;
    UniformSamplesAverage(colors, Zero);
  }

  /** In a scene whose albedos are all in [0, 1], each sample colour of a
      pixel lies in the unit cube. */
  lemma SamplesBounded(m: MathLib, cam: Camera, world: HittableLists.HittableList<Material>, i: int, j: int, samples: seq<SampleDraw>)
    requires Lawful(m) && Shootable(cam) && ValidWorld(world) && BoundedWorld(world)
    ensures forall s :: 0 <= s < |samples| ==> UnitColor(SampleColors(m, cam, world, i, j, samples)[s])
  {
    forall s | 0 <= s < |samples|
      ensures UnitColor(SampleColors(m, cam, world, i, j, samples)[s])
    {
      var d := samples[s];
      CameraRayNonZero(m, cam, i, j, d.ray);
      RayColorBounded(m, world, GetRay(Initialize(m, cam), cam, i, j, d.ray), cam.maxDepth, d.bounces);
    }
  }

  // -----------------------------------------------------------------------
  // Images.

  /** The draws of every pixel, by column `i` and row `j`. */
  type PixelDraws = (int, int) -> seq<SampleDraw>

  /** What both `render` variants need: a shootable camera with a positive
      width and sample count, a valid world, and for every pixel exactly
      `samples_per_pixel` sample draws. */
  ghost predicate CanRender(cam: Camera, world: HittableLists.HittableList<Material>, draws: PixelDraws) {
    && Shootable(cam) && 0 < cam.imageWidth && 0 < cam.samplesPerPixel
    && ValidWorld(world)
    && forall i, j :: |draws(i, j)| == cam.samplesPerPixel
  }

  /** The colour of pixel (i, j). */
  function Pixel(m: MathLib, cam: Camera, world: HittableLists.HittableList<Material>, draws: PixelDraws, i: int, j: int): Rgb
    requires Lawful(m) && CanRender(cam, world, draws)
  {
    PixelColor(m, cam, world, i, j, draws(i, j))
  }

  /** The stream `render`: rows top to bottom, each row left to right.
      Pixel (i, j) is the `j * width + i`-th one written. */
  method RenderRows(m: MathLib, cam: Camera, world: HittableLists.HittableList<Material>, draws: PixelDraws)
    returns (pixels: seq<Rgb>)
    requires Lawful(m) && CanRender(cam, world, draws)
    ensures var w, h := cam.imageWidth, Initialize(m, cam).imageHeight;
      && |pixels| == h * w
      && forall i, j :: 0 <= i < w && 0 <= j < h ==>
           RowMajor(i, j, w) < |pixels| && pixels[RowMajor(i, j, w)] == Pixel(m, cam, world, draws, i, j)
    ensures forall q :: 0 <= q < |pixels| ==>
      pixels[q] == Pixel(m, cam, world, draws, q % cam.imageWidth, q / cam.imageWidth)
  {
    pixels := RowByRow((i, j) => Pixel(m, cam, world, draws, i, j), cam.imageWidth, Initialize(m, cam).imageHeight);
  }

  /** The two nested loops of the stream `render`, emitting `pixel(i, j)`
      for each row `j` and, within it, each column `i`. */
  method RowByRow(pixel: (int, int) -> Rgb, w: int, h: int) returns (pixels: seq<Rgb>)
    requires 0 < w && 0 <= h
    ensures |pixels| == h * w
    ensures forall i, j :: 0 <= i < w && 0 <= j < h ==>
      RowMajor(i, j, w) < |pixels| && pixels[RowMajor(i, j, w)] == pixel(i, j)
    ensures forall q :: 0 <= q < |pixels| ==> pixels[q] == pixel(q % w, q / w)
  {
    pixels := [];
    var j := 0;
    while j < h
      invariant 0 <= j <= h
      invariant |pixels| == RowMajor(0, j, w)
      invariant forall q :: 0 <= q < |pixels| ==> pixels[q] == pixel(q % w, q / w)
    {
      var i := 0;
      while i < w
        invariant 0 <= i <= w
        invariant |pixels| == RowMajor(i, j, w)
        invariant forall q :: 0 <= q < |pixels| ==> pixels[q] == pixel(q % w, q / w)
      {
        RowMajorInverse(i, j, w);
        pixels := pixels + [pixel(i, j)];
        i := i + 1;
      }
      NextRow(j, w);
      j := j + 1;
    }
    forall i, j | 0 <= i < w && 0 <= j < h
      ensures RowMajor(i, j, w) < |pixels| && pixels[RowMajor(i, j, w)] == pixel(i, j)
    {
      RowMajorBound(i, j, w, h);
      RowMajorInverse(i, j, w);
    }
  }

  /** The position of pixel (i, j) in row-major order. */
  function RowMajor(i: int, j: int, width: int): int {
    j * width + i
  }

  /** Row-major numbering is undone by division and remainder by the width. */
  lemma RowMajorInverse(i: int, j: int, width: int)
    requires 0 <= i < width && 0 <= j
    ensures RowMajor(i, j, width) / width == j && RowMajor(i, j, width) % width == i
  {
    var q := RowMajor(i, j, width);
    DivModUnique(q, width, j, i);
  }

  lemma DivModUnique(q: int, d: int, a: int, b: int)
    requires 0 <= b < d && q == a * d + b
    ensures q / d == a && q % d == b
  {
    var a', b' := q / d, q % d;
    assert q == a' * d + b' && 0 <= b' < d;
    if a' < a {
      assert a' * d + d <= a * d by { MulLe(a' + 1, a, d); }
    } else if a < a' {
      assert a * d + d <= a' * d by { MulLe(a + 1, a', d); }
    }
  }

  lemma MulLe(x: int, y: int, d: int)
    requires x <= y && 0 <= d
    ensures x * d <= y * d
  {
    assert y * d - x * d == (y - x) * d;
  }

  /** The pixel after the last one of row `j` is the first of row `j + 1`. */
  lemma NextRow(j: int, width: int)
    ensures RowMajor(width, j, width) == RowMajor(0, j + 1, width)
  {
  }

  /** Every in-range pixel has a place inside a `height * width` image. */
  lemma RowMajorBound(i: int, j: int, width: int, height: int)
    requires 0 <= i < width && 0 <= j < height
    ensures 0 <= RowMajor(i, j, width) < height * width
  {
    MulLe(0, j, width);
    MulLe(j + 1, height, width);
  }

  // -----------------------------------------------------------------------
  // The parallel render.

  /** `stride`: the offset of pixel (i, j)'s three bytes in the RGB buffer. */
  function Stride(i: int, j: int, width: int): int {
    RowMajor(i, j, width) * 3
  }

  /** The three bytes at `s` hold the channels of `c`. */
  predicate SlotHolds(buffer: seq<int>, s: int, c: Rgb) {
    0 <= s && s + 3 <= |buffer| && buffer[s] == c.r && buffer[s + 1] == c.g && buffer[s + 2] == c.b
  }

  /** Every in-range pixel's slot lies inside the `height * width * 3` byte
      buffer, and the byte offset determines the pixel.  The source computes
      both the buffer size and the offset in `int`, so the image must be
      small enough for the size to fit. */
  lemma StrideInBuffer(i: int, j: int, width: int, height: int)
    requires 0 <= i < width && 0 <= j < height
    requires height * width * 3 <= IntMax
    ensures Stride(i, j, width) + 3 <= IntMax
    ensures 0 <= Stride(i, j, width) && Stride(i, j, width) + 3 <= height * width * 3
    ensures Stride(i, j, width) / 3 % width == i && Stride(i, j, width) / 3 / width == j
  {
    RowMajorBound(i, j, width, height);
    RowMajorInverse(i, j, width);
  }

  /** Two different pixels of a row of `width` write disjoint bytes, so the
      tasks of the parallel `render` never touch each other's output. */
  lemma StridesDisjoint(i1: int, j1: int, i2: int, j2: int, width: int)
    requires 0 <= i1 < width && 0 <= j1 && 0 <= i2 < width && 0 <= j2
    requires (i1, j1) != (i2, j2)
    ensures Stride(i1, j1, width) + 3 <= Stride(i2, j2, width) || Stride(i2, j2, width) + 3 <= Stride(i1, j1, width)
  {
    RowMajorInverse(i1, j1, width);
    RowMajorInverse(i2, j2, width);
  }

  /** The parallel `render`: one task per pixel, each writing its pixel's
      three bytes at its stride.  The tasks run in the order `order` lists
      them (a task may even run twice); whatever that order, as long as
      every pixel's task runs, every pixel's slot ends up holding its
      colour, the same colour the stream `render` emits at that position.
      The byte count `height * width * 3` must fit in an `int`. */
  method RenderBuffer(m: MathLib, cam: Camera, world: HittableLists.HittableList<Material>, draws: PixelDraws, order: seq<(int, int)>)
    returns (buffer: seq<int>)
    requires Lawful(m) && CanRender(cam, world, draws)
    requires var w, h := cam.imageWidth, Initialize(m, cam).imageHeight;
      && h * w * 3 <= IntMax
      && (forall t :: 0 <= t < |order| ==> 0 <= order[t].0 < w && 0 <= order[t].1 < h)
      && (forall i, j :: 0 <= i < w && 0 <= j < h ==> (i, j) in order)
    ensures var w, h := cam.imageWidth, Initialize(m, cam).imageHeight;
      && |buffer| == h * w * 3
      && forall i, j :: 0 <= i < w && 0 <= j < h ==>
           SlotHolds(buffer, Stride(i, j, w), Pixel(m, cam, world, draws, i, j))
  {
    buffer := RunTasks((i, j) => Pixel(m, cam, world, draws, i, j), cam.imageWidth, Initialize(m, cam).imageHeight, order);
  }

  /** The tasks of the parallel `render`, run one after another in `order`,
      over a buffer of `h * w * 3` bytes. */
  method RunTasks(pixel: (int, int) -> Rgb, w: int, h: int, order: seq<(int, int)>) returns (buffer: seq<int>)
    requires 0 < w && 0 <= h && h * w * 3 <= IntMax
    requires forall t :: 0 <= t < |order| ==> 0 <= order[t].0 < w && 0 <= order[t].1 < h
    requires forall i, j :: 0 <= i < w && 0 <= j < h ==> (i, j) in order
    ensures |buffer| == h * w * 3
    ensures forall i, j :: 0 <= i < w && 0 <= j < h ==> SlotHolds(buffer, Stride(i, j, w), pixel(i, j))
  {
    buffer := seq(h * w * 3, _ => 0);
    for k := 0 to |order|
      invariant |buffer| == h * w * 3
      invariant forall t :: 0 <= t < k ==>
        SlotHolds(buffer, Stride(order[t].0, order[t].1, w), pixel(order[t].0, order[t].1))
    {
      var (i, j) := order[k];
      var stride := Stride(i, j, w);
      var c := pixel(i, j);
      StrideInBuffer(i, j, w, h);
      var before := buffer;
      buffer := buffer[stride := c.r][stride + 1 := c.g][stride + 2 := c.b];
      forall t | 0 <= t < k
        ensures SlotHolds(buffer, Stride(order[t].0, order[t].1, w), pixel(order[t].0, order[t].1))
      {
        if order[t] != (i, j) {
          StridesDisjoint(order[t].0, order[t].1, i, j, w);
        }
      }
    }
    forall i, j | 0 <= i < w && 0 <= j < h
      ensures SlotHolds(buffer, Stride(i, j, w), pixel(i, j))
    {
      var t :| 0 <= t < |order| && order[t] == (i, j);
    }
  }

  /** The two `render` variants produce the same image: byte `3 q + c` of
      the buffer is channel `c` of the `q`-th pixel the stream writer
      emits. */
  lemma RendersAgree(pixels: seq<Rgb>, buffer: seq<int>, w: int, h: int)
    requires 0 < w && 0 <= h && |pixels| == h * w && |buffer| == h * w * 3
    requires forall i, j :: 0 <= i < w && 0 <= j < h ==> RowMajor(i, j, w) < |pixels|
    requires forall i, j :: 0 <= i < w && 0 <= j < h ==>
      SlotHolds(buffer, Stride(i, j, w), pixels[RowMajor(i, j, w)])
    ensures forall q :: 0 <= q < h * w ==>
      buffer[3 * q] == pixels[q].r && buffer[3 * q + 1] == pixels[q].g && buffer[3 * q + 2] == pixels[q].b
  {
    forall q | 0 <= q < h * w
      ensures buffer[3 * q] == pixels[q].r && buffer[3 * q + 1] == pixels[q].g && buffer[3 * q + 2] == pixels[q].b
    {
      var i, j := q % w, q / w;
      assert q == RowMajor(i, j, w);
      assert j < h by {
        if h <= j { MulLe(h, j, w); }
      }
      assert SlotHolds(buffer, Stride(i, j, w), pixels[RowMajor(i, j, w)]);
    }
  }

  /** Both `render` variants run on the same camera, world and draws, the
      parallel one with its tasks in any covering order: byte `3 q + c` of
      the buffer is channel `c` of the `q`-th pixel the stream writes, and
      that pixel is the one in column `q % width` of row `q / width`. */
  method RenderBoth(m: MathLib, cam: Camera, world: HittableLists.HittableList<Material>, draws: PixelDraws, order: seq<(int, int)>)
    returns (pixels: seq<Rgb>, buffer: seq<int>)
    requires Lawful(m) && CanRender(cam, world, draws)
    requires var w, h := cam.imageWidth, Initialize(m, cam).imageHeight;
      && h * w * 3 <= IntMax
      && (forall t :: 0 <= t < |order| ==> 0 <= order[t].0 < w && 0 <= order[t].1 < h)
      && (forall i, j :: 0 <= i < w && 0 <= j < h ==> (i, j) in order)
    ensures |buffer| == 3 * |pixels|
    ensures forall q :: 0 <= q < |pixels| ==>
      && pixels[q] == Pixel(m, cam, world, draws, q % cam.imageWidth, q / cam.imageWidth)
      && buffer[3 * q] == pixels[q].r && buffer[3 * q + 1] == pixels[q].g && buffer[3 * q + 2] == pixels[q].b
  {
    var w, h := cam.imageWidth, Initialize(m, cam).imageHeight;
    pixels := RenderRows(m, cam, world, draws);
    buffer := RenderBuffer(m, cam, world, draws, order);
    RendersAgree(pixels, buffer, w, h);
  }
}
