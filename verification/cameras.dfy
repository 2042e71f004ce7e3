/** The camera (RTIOW/libs/camera.h): the viewing geometry computed by
    `initialize` and the jittered rays of `get_ray`.  The shading of
    `get_ray_color` and the two `render` variants are in `Rendering`.

    Random draws are parameters: the two `random_double()` values of
    `pixel_sample_square` and the point `random_in_unit_disk()` returned for
    the defocus disk. */
module Cameras {
  import opened Common
  import opened Vectors
  import opened Rays

  /** The public settings of `camera`. */
  datatype Camera = Camera(
    aspectRatio: real,
    imageWidth: int,
    samplesPerPixel: int,
    maxDepth: int,
    vfov: real,
    lookfrom: Point3,
    lookat: Point3,
    vup: Vec3,
    defocusAngle: real,
    focusDistance: real)

  /** The settings a default-constructed camera has. */
  function Default(): Camera {
    Camera(1.0, 100, 10, 10, 90.0,
           Vec3(0.0, 0.0, -1.0), Vec3(0.0, 0.0, 0.0), Vec3(0.0, 1.0, 0.0),
           0.0, 10.0)
  }

  /** `image_height = max(int(image_width / aspect_ratio), 1)`: at least one
      row, and otherwise the whole part of the width over the ratio. */
  function ImageHeight(imageWidth: int, aspectRatio: real): (h: int)
    requires aspectRatio != 0.0
    ensures 1 <= h
    ensures 1.0 <= imageWidth as real / aspectRatio ==>
      h as real <= imageWidth as real / aspectRatio < h as real + 1.0
    ensures imageWidth as real / aspectRatio < 1.0 ==> h == 1
  {
    var t := Trunc(imageWidth as real / aspectRatio);
    if t < 1 then 1 else t
  }

  // -----------------------------------------------------------------------
  // The camera frame.

  /** `u`, `v`, `w`: `w` points back from the look-at point, `u` to the
      right, `v` up in the image. */
  datatype Frame = Frame(u: Vec3, v: Vec3, w: Vec3)

  /** Three unit vectors, pairwise orthogonal. */
  predicate Orthonormal(f: Frame) {
    && LengthSquared(f.u) == 1.0 && LengthSquared(f.v) == 1.0 && LengthSquared(f.w) == 1.0
    && Dot(f.u, f.v) == 0.0 && Dot(f.v, f.w) == 0.0 && Dot(f.u, f.w) == 0.0
  }

  /** The frame is defined: the camera does not look at its own position, and
      the up vector is not parallel to the viewing direction (otherwise
      `unit_vector` would divide by zero). */
  predicate Aimable(lookfrom: Point3, lookat: Point3, vup: Vec3) {
    0.0 < LengthSquared(Cross(vup, Sub(lookfrom, lookat)))
  }

  /** The frame `initialize` builds: `w = unit(lookfrom - lookat)`,
      `u = unit(vup x w)`, `v = w x u`.  It is orthonormal, `w` points from
      the look-at point towards the camera, and `u` is horizontal (orthogonal
      to `vup`). */
  function MakeFrame(m: MathLib, lookfrom: Point3, lookat: Point3, vup: Vec3): (f: Frame)
    requires Lawful(m) && Aimable(lookfrom, lookat, vup)
    ensures Orthonormal(f)
    ensures Cross(f.w, Sub(lookfrom, lookat)) == Zero && 0.0 < Dot(f.w, Sub(lookfrom, lookat))
    ensures Dot(f.u, vup) == 0.0
  {
    var d := Sub(lookfrom, lookat);
    AimableDirection(d, vup);
    var w := UnitVector(m, d);
    CrossWithUnit(m, vup, d);
    var c := Cross(vup, w);
    var u := UnitVector(m, c);
    var v := Cross(w, u);
    FrameOrthonormal(m, vup, w);
    Frame(u, v, w)
  }

  /** A direction that is not parallel to `vup` is not zero. */
  lemma AimableDirection(d: Vec3, vup: Vec3)
    requires 0.0 < LengthSquared(Cross(vup, d))
    ensures 0.0 < LengthSquared(d)
  {
    LengthSquaredNonNegative(d);
    if d == Vec3(0.0, 0.0, 0.0) {
      CrossZeroRight(vup, d);
      assert false;
    }
  }

  lemma CrossZeroRight(a: Vec3, d: Vec3)
    requires d == Vec3(0.0, 0.0, 0.0)
    ensures LengthSquared(Cross(a, d)) == 0.0
  {
    assert Cross(a, d) == Vec3(0.0, 0.0, 0.0);
    LengthSquaredZero();
  }

  /** Normalising `d` does not make `vup x d` vanish. */
  lemma CrossWithUnit(m: MathLib, vup: Vec3, d: Vec3)
    requires Lawful(m) && 0.0 < LengthSquared(Cross(vup, d))
    requires 0.0 < LengthSquared(d)
    ensures 0.0 < LengthSquared(Cross(vup, UnitVector(m, d)))
  {
    var len := Length(m, d);
    SqrtPositive(m, LengthSquared(d));
    var k := 1.0 / len;
    assert UnitVector(m, d) == Scale(k, d);
    CrossScaleRight(vup, k, d);
    LengthSquaredScale(k, Cross(vup, d));
    SquarePositive(k);
    MulPositive(k * k, LengthSquared(Cross(vup, d)));
  }

  lemma MulPositive(a: real, b: real)
    requires 0.0 < a && 0.0 < b
    ensures 0.0 < a * b
  {
  }

  /** The frame built from a unit `w` is orthonormal, with `u` orthogonal to
      `vup`. */
  lemma FrameOrthonormal(m: MathLib, vup: Vec3, w: Vec3)
    requires Lawful(m) && LengthSquared(w) == 1.0
    requires 0.0 < LengthSquared(Cross(vup, w))
    ensures var u := UnitVector(m, Cross(vup, w));
      Orthonormal(Frame(u, Cross(w, u), w)) && Dot(u, vup) == 0.0
  {
    var c := Cross(vup, w);
    var u := UnitVector(m, c);
    var v := Cross(w, u);
    CrossOrthogonal(vup, w);
    UnitParallel(m, c, w);
    UnitParallel(m, c, vup);
    CrossOrthogonal(w, u);
    DotSymmetric(u, w);
    DotSymmetric(v, u);
    LagrangeUnit(w, u);
  }

  /** Normalising keeps orthogonality to `n`. */
  lemma UnitParallel(m: MathLib, c: Vec3, n: Vec3)
    requires Lawful(m) && 0.0 < LengthSquared(c) && Dot(c, n) == 0.0
    ensures Dot(UnitVector(m, c), n) == 0.0
  {
    var k := 1.0 / Length(m, c);
    SqrtPositive(m, LengthSquared(c));
    assert UnitVector(m, c) == Scale(k, c);
    PerpScale(k, c, n);
  }

  /** The cross product of two orthogonal unit vectors is a unit vector. */
  lemma LagrangeUnit(a: Vec3, b: Vec3)
    requires LengthSquared(a) == 1.0 && LengthSquared(b) == 1.0 && Dot(a, b) == 0.0
    ensures LengthSquared(Cross(a, b)) == 1.0
  {
    Lagrange(a, b);
  }

  // -----------------------------------------------------------------------
  // The viewport.

  /** The camera settings `initialize` can work with: a non-zero aspect ratio
      and width (both are divisors) and an aimable frame. */
  predicate Renderable(cam: Camera) {
    cam.aspectRatio != 0.0 && cam.imageWidth != 0 && Aimable(cam.lookfrom, cam.lookat, cam.vup)
  }

  /** The state `initialize` computes. */
  datatype View = View(
    imageHeight: int,
    center: Point3,
    pixel00: Point3,
    pixelDeltaU: Vec3,
    pixelDeltaV: Vec3,
    frame: Frame,
    defocusDiskU: Vec3,
    defocusDiskV: Vec3)

  /** `2 * focus_distance * tan(vfov / 2)` */
  function ViewportHeight(m: MathLib, cam: Camera): real {
    2.0 * cam.focusDistance * m.tan(DegreesToRadians(cam.vfov) / 2.0)
  }

  /** For a field of view strictly between 0 and 180 degrees and a positive
      focus distance the viewport has positive height. */
  lemma ViewportHeightPositive(m: MathLib, cam: Camera)
    requires Lawful(m) && 0.0 < cam.vfov < 180.0 && 0.0 < cam.focusDistance
    ensures 0.0 < ViewportHeight(m, cam)
  {
    var t := m.tan(DegreesToRadians(cam.vfov) / 2.0);
    assert 0.0 < t;
    MulPositive(2.0 * cam.focusDistance, t);
  }

  /** The viewport's horizontal edge: its width is the height times the
      actual ratio of the image's width to its height. */
  function ViewportU(m: MathLib, cam: Camera): Vec3
    requires Lawful(m) && Renderable(cam)
  {
    var imageHeight := ImageHeight(cam.imageWidth, cam.aspectRatio);
    var width := ViewportHeight(m, cam) * (cam.imageWidth as real / imageHeight as real);
    Scale(width, MakeFrame(m, cam.lookfrom, cam.lookat, cam.vup).u)
  }

  /** The viewport's vertical edge, pointing down the image. */
  function ViewportV(m: MathLib, cam: Camera): Vec3
    requires Lawful(m) && Renderable(cam)
  {
    Scale(ViewportHeight(m, cam), Neg(MakeFrame(m, cam.lookfrom, cam.lookat, cam.vup).v))
  }

  /** The upper-left corner of the viewport, on the focus plane. */
  function UpperLeft(m: MathLib, cam: Camera): Point3
    requires Lawful(m) && Renderable(cam)
  {
    var w := MakeFrame(m, cam.lookfrom, cam.lookat, cam.vup).w;
    Sub(Sub(Sub(cam.lookfrom, Scale(cam.focusDistance, w)), Div(ViewportU(m, cam), 2.0)), Div(ViewportV(m, cam), 2.0))
  }

  /** `initialize` */
  function Initialize(m: MathLib, cam: Camera): (view: View)
    requires Lawful(m) && Renderable(cam)
    ensures 1 <= view.imageHeight
    ensures view.center == cam.lookfrom
    ensures Orthonormal(view.frame)
    ensures Dot(view.pixelDeltaU, view.frame.w) == 0.0 && Dot(view.pixelDeltaV, view.frame.w) == 0.0
    ensures Dot(view.defocusDiskU, view.frame.w) == 0.0 && Dot(view.defocusDiskV, view.frame.w) == 0.0
  {
    var imageHeight := ImageHeight(cam.imageWidth, cam.aspectRatio);
    var f := MakeFrame(m, cam.lookfrom, cam.lookat, cam.vup);
    var pixelDeltaU := Div(ViewportU(m, cam), cam.imageWidth as real);
    var pixelDeltaV := Div(ViewportV(m, cam), imageHeight as real);
    var pixel00 := Add(UpperLeft(m, cam), Scale(0.5, Add(pixelDeltaU, pixelDeltaV)));
    var defocusRadius := cam.focusDistance * m.tan(DegreesToRadians(cam.defocusAngle / 2.0));
    var view := View(imageHeight, cam.lookfrom, pixel00, pixelDeltaU, pixelDeltaV, f,
                     Scale(defocusRadius, f.u), Scale(defocusRadius, f.v));
    DeltasInPlane(m, cam, view, defocusRadius);
    view
  }

  /** The pixel steps and the defocus disk lie in the plane of `u` and `v`. */
  lemma DeltasInPlane(m: MathLib, cam: Camera, view: View, radius: real)
    requires Lawful(m) && Renderable(cam)
    requires view.frame == MakeFrame(m, cam.lookfrom, cam.lookat, cam.vup)
    requires view.pixelDeltaU == Div(ViewportU(m, cam), cam.imageWidth as real)
    requires view.pixelDeltaV == Div(ViewportV(m, cam), ImageHeight(cam.imageWidth, cam.aspectRatio) as real)
    requires view.defocusDiskU == Scale(radius, view.frame.u) && view.defocusDiskV == Scale(radius, view.frame.v)
    ensures Dot(view.pixelDeltaU, view.frame.w) == 0.0 && Dot(view.pixelDeltaV, view.frame.w) == 0.0
    ensures Dot(view.defocusDiskU, view.frame.w) == 0.0 && Dot(view.defocusDiskV, view.frame.w) == 0.0
  {
    var f := view.frame;
    var r := radius;
    DotSymmetric(f.v, f.w);
    ViewportEdgesInPlane(m, cam);
    PerpScale(1.0 / cam.imageWidth as real, ViewportU(m, cam), f.w);
    PerpScale(1.0 / ImageHeight(cam.imageWidth, cam.aspectRatio) as real, ViewportV(m, cam), f.w);
    PerpScale(r, f.u, f.w);
    PerpScale(r, f.v, f.w);
  }

  /** Both viewport edges are orthogonal to `w`. */
  lemma ViewportEdgesInPlane(m: MathLib, cam: Camera)
    requires Lawful(m) && Renderable(cam)
    ensures var w := MakeFrame(m, cam.lookfrom, cam.lookat, cam.vup).w;
      Dot(ViewportU(m, cam), w) == 0.0 && Dot(ViewportV(m, cam), w) == 0.0
  {
    var f := MakeFrame(m, cam.lookfrom, cam.lookat, cam.vup);
    var imageHeight := ImageHeight(cam.imageWidth, cam.aspectRatio);
    var width := ViewportHeight(m, cam) * (cam.imageWidth as real / imageHeight as real);
    PerpScale(width, f.u, f.w);
    DotSymmetric(f.v, f.w);
    DotNegLeft(f.v, f.w);
    PerpScale(ViewportHeight(m, cam), Neg(f.v), f.w);
  }

  // -----------------------------------------------------------------------
  // Camera rays.

  /** The random values one call of `get_ray` consumes: the two
      `random_double()` of `pixel_sample_square` and the point of
      `random_in_unit_disk()` (used only when the defocus angle is
      positive). */
  datatype RayDraw = RayDraw(px: real, py: real, disk: Vec3)

  /** `pixel00_loc + i * pixel_delta_u + j * pixel_delta_v` */
  function PixelCenter(view: View, i: int, j: int): Point3 {
    Add(Add(view.pixel00, Scale(i as real, view.pixelDeltaU)), Scale(j as real, view.pixelDeltaV))
  }

  /** `pixel_sample_square`: an offset from the pixel centre of up to half a
      pixel step each way.  Measured from the pixel's upper-left corner
      (half a step back along both deltas) the sample sits at the fractions
      `px` and `py` of the two deltas, and draws of one half give the centre
      itself. */
  function PixelSampleSquare(view: View, px: real, py: real): (offset: Vec3)
    ensures Add(offset, Scale(0.5, Add(view.pixelDeltaU, view.pixelDeltaV)))
         == Add(Scale(px, view.pixelDeltaU), Scale(py, view.pixelDeltaV))
    ensures px == 0.5 && py == 0.5 ==> offset == Zero
  {
    Add(Scale(-0.5 + px, view.pixelDeltaU), Scale(-0.5 + py, view.pixelDeltaV))
  }

  /** `defocus_disk_sample`: the camera centre moved by the first two
      coordinates of the disk point along the disk's axes.  The disk's own
      centre is the camera centre, and when both axes are orthogonal to `w`
      every point of the disk is at the camera's depth along `w`. */
  function DefocusDiskSample(view: View, p: Vec3): (origin: Point3)
    ensures p.x == 0.0 && p.y == 0.0 ==> origin == view.center
    ensures Dot(view.defocusDiskU, view.frame.w) == 0.0 && Dot(view.defocusDiskV, view.frame.w) == 0.0 ==>
      Dot(origin, view.frame.w) == Dot(view.center, view.frame.w)
  {
    var w := view.frame.w;
    var a := Add(view.center, Scale(p.x, view.defocusDiskU));
    var origin := Add(a, Scale(p.y, view.defocusDiskV));
    assert Dot(view.defocusDiskU, w) == 0.0 && Dot(view.defocusDiskV, w) == 0.0 ==>
      Dot(origin, w) == Dot(view.center, w) by {
      if Dot(view.defocusDiskU, w) == 0.0 && Dot(view.defocusDiskV, w) == 0.0 {
        PerpScale(p.x, view.defocusDiskU, w);
        PerpScale(p.y, view.defocusDiskV, w);
        DotAddLeft(view.center, Scale(p.x, view.defocusDiskU), w);
        DotAddLeft(a, Scale(p.y, view.defocusDiskV), w);
      }
    }
    origin
  }

  /** `get_ray(i, j)`: a ray from the camera centre (or, with a positive
      defocus angle, from a point of the defocus disk) through a jittered
      point of pixel `(i, j)`.  The ray starts at the centre exactly when
      defocus blur is off, and it always reaches the sampled point at
      parameter 1. */
  function GetRay(view: View, cam: Camera, i: int, j: int, draw: RayDraw): (r: Ray)
    ensures cam.defocusAngle <= 0.0 ==> r.origin == view.center
    ensures 0.0 < cam.defocusAngle ==> r.origin == DefocusDiskSample(view, draw.disk)
    ensures At(r, 1.0) == Add(PixelCenter(view, i, j), PixelSampleSquare(view, draw.px, draw.py))
  {
    var pixelSample := Add(PixelCenter(view, i, j), PixelSampleSquare(view, draw.px, draw.py));
    var origin := if cam.defocusAngle <= 0.0 then view.center else DefocusDiskSample(view, draw.disk);
    var r := Ray(origin, Sub(pixelSample, origin));
    AddSubCancel(origin, pixelSample);
    r
  }

  lemma AddSubCancel(a: Vec3, b: Vec3)
    ensures Add(a, Sub(b, a)) == b
  {
  }

  /** Pixel `(i, j)` is centred half a step right of and below the grid point
      `upper_left + i du + j dv`. */
  lemma PixelCenterFormula(m: MathLib, cam: Camera, i: int, j: int)
    requires Lawful(m) && Renderable(cam)
    ensures var view := Initialize(m, cam);
      PixelCenter(view, i, j) ==
        Add(Add(UpperLeft(m, cam), Scale(i as real + 0.5, view.pixelDeltaU)), Scale(j as real + 0.5, view.pixelDeltaV))
  {
    var view := Initialize(m, cam);
    GridOffset(UpperLeft(m, cam), view.pixelDeltaU, view.pixelDeltaV, i as real, j as real);
  }

  lemma GridOffset(ul: Point3, du: Vec3, dv: Vec3, a: real, b: real)
    ensures Add(Add(Add(ul, Scale(0.5, Add(du, dv))), Scale(a, du)), Scale(b, dv))
         == Add(Add(ul, Scale(a + 0.5, du)), Scale(b + 0.5, dv))
  {
    assert ul.x + 0.5 * (du.x + dv.x) + a * du.x + b * dv.x == ul.x + (a + 0.5) * du.x + (b + 0.5) * dv.x;
    assert ul.y + 0.5 * (du.y + dv.y) + a * du.y + b * dv.y == ul.y + (a + 0.5) * du.y + (b + 0.5) * dv.y;
    assert ul.z + 0.5 * (du.z + dv.z) + a * du.z + b * dv.z == ul.z + (a + 0.5) * du.z + (b + 0.5) * dv.z;
  }

  /** The jittered sample of pixel `(i, j)` is the grid point
      `upper_left + (i + px) du + (j + py) dv`; with draws in [0, 1) it lies
      in the pixel's own cell of the viewport. */
  lemma SampleInPixel(m: MathLib, cam: Camera, i: int, j: int, draw: RayDraw)
    requires Lawful(m) && Renderable(cam)
    ensures var view := Initialize(m, cam);
      At(GetRay(view, cam, i, j, draw), 1.0) ==
        Add(Add(UpperLeft(m, cam), Scale(i as real + draw.px, view.pixelDeltaU)), Scale(j as real + draw.py, view.pixelDeltaV))
  {
    var view := Initialize(m, cam);
    var ul := UpperLeft(m, cam);
    PixelCenterFormula(m, cam, i, j);
    Jitter(ul, view.pixelDeltaU, view.pixelDeltaV, i as real, j as real, draw.px, draw.py);
  }

  lemma Jitter(ul: Point3, du: Vec3, dv: Vec3, a: real, b: real, px: real, py: real)
    ensures Add(Add(Add(ul, Scale(a + 0.5, du)), Scale(b + 0.5, dv)), Add(Scale(-0.5 + px, du), Scale(-0.5 + py, dv)))
         == Add(Add(ul, Scale(a + px, du)), Scale(b + py, dv))
  {
    assert (a + 0.5) * du.x + (-0.5 + px) * du.x == (a + px) * du.x;
    assert (a + 0.5) * du.y + (-0.5 + px) * du.y == (a + px) * du.y;
    assert (a + 0.5) * du.z + (-0.5 + px) * du.z == (a + px) * du.z;
    assert (b + 0.5) * dv.x + (-0.5 + py) * dv.x == (b + py) * dv.x;
    assert (b + 0.5) * dv.y + (-0.5 + py) * dv.y == (b + py) * dv.y;
    assert (b + 0.5) * dv.z + (-0.5 + py) * dv.z == (b + py) * dv.z;
  }

  /** Every camera ray reaches the plane of perfect focus at parameter 1: its
      direction has component `-focus_distance` along `w`, whatever the
      pixel, the jitter and the point of the defocus disk.  In particular a
      non-zero focus distance gives a non-zero direction. */
  lemma FocusPlane(m: MathLib, cam: Camera, i: int, j: int, draw: RayDraw)
    requires Lawful(m) && Renderable(cam)
    ensures var view := Initialize(m, cam);
      Dot(GetRay(view, cam, i, j, draw).direction, view.frame.w) == -cam.focusDistance
  {
    var view := Initialize(m, cam);
    var w := view.frame.w;
    var du, dv := view.pixelDeltaU, view.pixelDeltaV;
    var ul := UpperLeft(m, cam);
    UpperLeftDepth(m, cam);
    assert view.pixel00 == Add(ul, Scale(0.5, Add(du, dv)));
    DotAddLeft(du, dv, w);
    PerpScale(0.5, Add(du, dv), w);
    DotAddLeft(ul, Scale(0.5, Add(du, dv)), w);
    SampleDepth(view, i, j, draw.px, draw.py);
    var r := GetRay(view, cam, i, j, draw);
    var sample := Add(PixelCenter(view, i, j), PixelSampleSquare(view, draw.px, draw.py));
    assert r.direction == Sub(sample, r.origin);
    DotAddLeft(sample, r.origin, w);
  }

  /** The upper-left corner lies `focus_distance` in front of the camera
      along `-w`. */
  lemma UpperLeftDepth(m: MathLib, cam: Camera)
    requires Lawful(m) && Renderable(cam)
    ensures var w := MakeFrame(m, cam.lookfrom, cam.lookat, cam.vup).w;
      Dot(UpperLeft(m, cam), w) == Dot(cam.lookfrom, w) - cam.focusDistance
  {
    var w := MakeFrame(m, cam.lookfrom, cam.lookat, cam.vup).w;
    var vu, vv := ViewportU(m, cam), ViewportV(m, cam);
    ViewportEdgesInPlane(m, cam);
    PerpScale(1.0 / 2.0, vu, w);
    PerpScale(1.0 / 2.0, vv, w);
    ScaleUnitDot(cam.focusDistance, w);
    var a := Sub(cam.lookfrom, Scale(cam.focusDistance, w));
    var b := Sub(a, Div(vu, 2.0));
    DotAddLeft(cam.lookfrom, Scale(cam.focusDistance, w), w);
    DotAddLeft(a, Div(vu, 2.0), w);
    DotAddLeft(b, Div(vv, 2.0), w);
  }

  lemma ScaleUnitDot(k: real, w: Vec3)
    requires LengthSquared(w) == 1.0
    ensures Dot(Scale(k, w), w) == k
  {
    DotScaleLeft(k, w, w);
    DotNegated(w, w);
  }

  /** Moving across the pixel grid and jittering within a pixel keeps the
      depth along `w`. */
  lemma SampleDepth(view: View, i: int, j: int, px: real, py: real)
    requires Dot(view.pixelDeltaU, view.frame.w) == 0.0 && Dot(view.pixelDeltaV, view.frame.w) == 0.0
    ensures Dot(Add(PixelCenter(view, i, j), PixelSampleSquare(view, px, py)), view.frame.w)
         == Dot(view.pixel00, view.frame.w)
  {
    var w := view.frame.w;
    var du, dv := view.pixelDeltaU, view.pixelDeltaV;
    PerpScale(i as real, du, w);
    PerpScale(j as real, dv, w);
    PerpScale(-0.5 + px, du, w);
    PerpScale(-0.5 + py, dv, w);
    var a := Add(view.pixel00, Scale(i as real, du));
    DotAddLeft(view.pixel00, Scale(i as real, du), w);
    DotAddLeft(a, Scale(j as real, dv), w);
    DotAddLeft(Scale(-0.5 + px, du), Scale(-0.5 + py, dv), w);
    DotAddLeft(PixelCenter(view, i, j), PixelSampleSquare(view, px, py), w);
  }

  /** A ray whose direction has a non-zero component along some vector is
      not the zero vector. */
  lemma NonZeroComponent(d: Vec3, w: Vec3)
    requires Dot(d, w) != 0.0
    ensures 0.0 < LengthSquared(d)
  {
    DotZeroLeft(w);
    LengthSquaredNonNegative(d);
  }

  lemma DotZeroLeft(w: Vec3)
    ensures Dot(Zero, w) == 0.0
  {
    assert Zero == Vec3(0.0, 0.0, 0.0);
  }

  /** The default image is square, 100 x 100. */
  lemma DefaultImageSquare()
    ensures ImageHeight(Default().imageWidth, Default().aspectRatio) == 100
  {
    assert 100 as real / 1.0 == 100.0;
    assert Trunc(100.0) == 100;
  }
}
