# A verified model of the "Ray Tracing in One Weekend" renderer core

This project models the core of a small CPU path tracer written in C++ (the
`RTIOW/libs` headers). The core covers:

- the numeric helpers of `common.h`;
- rays (`ray.h`);
- hit records and face normals (`hittable.h`);
- ray-sphere intersection (`sphere.h`);
- the closest-hit scan over a list of objects (`hittable_list.h`);
- the three materials: Lambertian, fuzzy metal, and dielectric with Schlick reflectance (`material.h`);
- the camera (`camera.h`): viewport set-up, jittered and defocused primary rays, recursive shading of a ray, and the two `render` variants (a row-by-row stream, and a parallel one that fills a byte buffer);
- the final quantisation of a pixel (`color.h`).

Model conventions:

- Arithmetic is over mathematical reals.
- `sqrt` and `tan` come in a `MathLib` record. The ghost predicate `Common.Lawful` gives the only facts used about them: `sqrt` is the principal square root, `tan 0 = 0`, and `tan` is positive on (0, `Pi`/2). `Common.Pi` is the double the source's `pi` literal rounds to, which is just below the real pi, so these facts can hold together.
- Every random draw is a parameter:
  - the `rand()` result (`RandomDouble`);
  - the pixel jitter and defocus-disk point (`Cameras.RayDraw`);
  - the unit vector and uniform number a `scatter` consumes (`Materials.ScatterDraw`);
  - per sample, the draws of every bounce (`Rendering.SampleDraw`).

The modules follow the headers:

| module | file |
|---|---|
| `Common` | `common.h` |
| `Vectors` | `vec3.h`, as used |
| `Intervals` | `interval.h`, as used |
| `Rays` | `ray.h` |
| `Hittable` | `hittable.h` |
| `Spheres` | `sphere.h` |
| `HittableLists` | `hittable_list.h` |
| `Materials` | `material.h` |
| `Colors` | `color.h` |
| `Cameras` | `camera.h`: `initialize` and `get_ray` |
| `Rendering` | `camera.h`: `get_ray_color` and `render` |

Two behaviours of the code worth noting:

- **Depth 0 is black.** `get_ray_color` returns black whenever `depth <= 0`, before it tests for a hit. So `max_depth = 0` gives an all-black image, not the sky. See `Rendering.NoBouncesBlackImage`.
- **No gamma correction.** `write_color` only averages, clamps to [0, 0.999], scales by 256 and truncates. It takes no square root.

## Model

| member | source | states |
|---|---|---|
| Common.DegreesToRadians | RTIOW/libs/common.h:13-16 | 0 degrees is 0 radians and 180 degrees is pi. Every field of view strictly between 0 and 180 degrees has a half-angle strictly between 0 and pi/2, where `tan` is positive. Negative angles give negative radians. |
| Common.RandomDouble | RTIOW/libs/common.h:18-21 | For any `rand()` value in [0, RAND_MAX] the draw lies in [0, 1); a zero draw gives 0. |
| Common.RandomDoubleIn | RTIOW/libs/common.h:23-26 | The draw lies in [min, max) when min < max, and is exactly min when the bounds coincide. |
| Common.Trunc | RTIOW/libs/color.h:23 | `static_cast<int>` truncates toward zero: for non-negative x the result is the floor, for negative x the ceiling. |
| Common.TruncMonotone | RTIOW/libs/color.h:23 | Truncation never reverses order. |
| Rays.At | RTIOW/libs/ray.h:15-18 | `at(t)` is displaced from the origin by exactly t times the direction. t = 0 gives the origin; t = 1 gives origin + direction. |
| Rays.AtAffine | RTIOW/libs/ray.h:15-18 | Two points on a ray differ by the parameter difference times the direction. |
| Hittable.SetFaceNormal | RTIOW/libs/hittable.h:16-23 | The record is front-facing exactly when the ray runs against the outward normal. The stored normal is the outward normal on a front face and its negation otherwise. It always opposes the ray and has the same length. Point, distance and material are untouched. |
| Intervals.Interval.Clamp | RTIOW/libs/color.h:22-25 | Clamping leaves values inside the interval alone, sends values below to `min` and values above to `max`, and always lands inside a non-empty interval. |
| Intervals.ClampIdempotentMonotone | RTIOW/libs/color.h:22-25 | Clamping twice is clamping once, and clamping preserves order. |
| Intervals.SurroundsNarrowed | RTIOW/libs/hittable_list.h:36 | Lowering the upper end to c keeps exactly the surrounded values below c. |
| Spheres.Hit | RTIOW/libs/sphere.h:12-45 | Returns no hit for a negative discriminant or a zero direction. Otherwise it returns the nearer root when the interval surrounds it, else the farther root when surrounded, else no hit. A hit lies strictly inside the interval, is the ray point at its distance, carries the sphere's material, and has a face normal chosen against the ray from `(p - center) / radius`. |
| Spheres.QuadraticDescribesDistance | RTIOW/libs/sphere.h:14-19 | The quadratic built from `a`, `half_b` and `c` is the squared distance from the centre, minus the squared radius, at every parameter. |
| Spheres.RootsByCompletingTheSquare | RTIOW/libs/sphere.h:19 | t is a root exactly when `(a t + half_b)^2` equals the discriminant. |
| Spheres.CandidateRoots | RTIOW/libs/sphere.h:23-30 | For a non-negative discriminant, `(-half_b -+ sqrtd) / a` are both roots, and the first is no larger than the second when a > 0. |
| Spheres.OnlyCandidateRoots | RTIOW/libs/sphere.h:19-30 | Every root of the quadratic is one of the two candidates the code computes, and its existence forces a non-negative discriminant. |
| Spheres.OnSphereIffRoot | RTIOW/libs/sphere.h:14-19 | The ray point at t lies on the sphere exactly when t is a root. |
| Spheres.HitIsOnSphere | RTIOW/libs/sphere.h:38-41 | A reported hit point lies on the sphere, and its normal has unit length (the source assumes this of `set_face_normal`'s argument). |
| Spheres.UnitOutward | RTIOW/libs/sphere.h:40 | `(p - center) / radius` is a unit vector for every point on the sphere. |
| Spheres.HitIsNearest | RTIOW/libs/sphere.h:21-36 | For a non-zero direction, there is no hit exactly when no point of the sphere lies at a surrounded parameter. A hit is at the smallest such parameter. |
| Spheres.HitNarrowed | RTIOW/libs/sphere.h:28-35 | Querying over (min, c) with c below the old upper end returns the full-interval hit if it lies below c, and no hit otherwise. |
| HittableLists.Empty | RTIOW/libs/hittable_list.h:15 | A new list holds no objects. |
| HittableLists.FromObject | RTIOW/libs/hittable_list.h:16 | The one-object constructor holds exactly that object. |
| HittableLists.Clear | RTIOW/libs/hittable_list.h:18-21 | `clear` leaves no objects. |
| HittableLists.Add | RTIOW/libs/hittable_list.h:23-26 | `add` keeps the existing objects in order and appends the new one. |
| HittableLists.Visit | RTIOW/libs/hittable_list.h:34-42 | One loop iteration either changes nothing or records a hit whose distance becomes the new, strictly lower, upper end. |
| HittableLists.ScanFindsFirstClosest | RTIOW/libs/hittable_list.h:28-45 | After the loop a hit is reported exactly when some object is hit over the full interval. On a miss the caller's record is untouched. On a hit the record is that of the first object at the smallest distance, and that distance is the final upper end. |
| HittableLists.NearerLastWins | RTIOW/libs/hittable_list.h:36-41 | An appended object hit strictly nearer than the previous first-closest becomes the first-closest. |
| HittableLists.FirstClosestExtends | RTIOW/libs/hittable_list.h:36-41 | An appended object that misses, or is hit no nearer, leaves the first-closest where it was (ties keep the earlier object). |
| HittableLists.Hit | RTIOW/libs/hittable_list.h:28-45 | The loop returns true exactly when some object is hit, leaves the record unchanged on a miss, and otherwise returns the first closest object's hit, strictly inside the interval. |
| HittableLists.ScanIsNearestInScene | RTIOW/libs/hittable_list.h:28-45 | The scene reports no hit exactly when no sphere has a point at a surrounded parameter. A reported hit lies on some sphere no farther than any such point. |
| HittableLists.ClearedSceneMisses | RTIOW/libs/hittable_list.h:18-21 | A cleared scene never reports a hit and returns the caller's record. |
| HittableLists.SingleObjectScene | RTIOW/libs/hittable_list.h:16 | A one-sphere list answers exactly as the sphere does. |
| HittableLists.AddedObjectWinsOnlyIfNearer | RTIOW/libs/hittable_list.h:23-45 | After `add`, the answer changes only when the new sphere is hit strictly nearer than the old answer, and then it is the new sphere's hit. |
| Materials.NewMetal | RTIOW/libs/material.h:45 | The constructor caps fuzz at 1: fuzz is kept exactly when it is at most 1, and is 1 otherwise. |
| Materials.Scatter | RTIOW/libs/material.h:14 | Every scatter starts at the hit point. Lambertian and dielectric always scatter. Lambertian and metal attenuate by their albedo; glass attenuates by white. |
| Materials.LambertianScatter | RTIOW/libs/material.h:22-36 | Direction is normal + random unit vector, or the normal itself when that sum is near zero. It is never the zero vector when the normal is not. |
| Materials.MetalScatter | RTIOW/libs/material.h:47-55 | Direction is the mirror reflection of the unit incoming direction plus fuzz times the draw. The ray is kept exactly when it leaves on the normal's side. |
| Materials.MirrorMetal | RTIOW/libs/material.h:47-55 | With fuzz 0, the ray is the pure reflection and is kept exactly when the incoming ray runs against the unit normal. |
| Materials.DielectricScatter | RTIOW/libs/material.h:67-93 | Glass always scatters white from the hit point. When the refraction test fails (total internal reflection, or Schlick's reflectance above the draw) the new direction is the reflection of the unit incoming direction; otherwise it is its refraction with the face's ratio. |
| Materials.RefractionRatio | RTIOW/libs/material.h:74 | The ratio is the reciprocal of the index on a front face and the index itself from inside, and is positive for a positive index. |
| Materials.CannotRefract | RTIOW/libs/material.h:76-78 | Glass reflects whenever Snell's law has no solution, whatever the draw. Otherwise, for a positive ratio and a cosine in [0, 1], a draw below R0 always reflects and a draw of 1 or more never does. |
| Materials.TotalInternalReflection | RTIOW/libs/material.h:76-77 | When `ratio * sin_theta > 1` the glass reflects whatever the draw. |
| Materials.HeadOnGlass | RTIOW/libs/material.h:67-93 | A unit ray meeting glass of index 1.5 head on from outside reflects exactly when the draw is below 0.04 (Schlick's R0 for 1/1.5). Otherwise it passes straight through. |
| Materials.DielectricUnitDirection | RTIOW/libs/material.h:67-93 | With a unit normal and positive index, the scattered direction is always a unit vector, whether reflected or refracted. |
| Materials.RefractUnit | RTIOW/libs/material.h:86 | When Snell's law has a solution, the refracted direction of unit vectors is a unit vector. |
| Materials.PowUnitInterval | RTIOW/libs/material.h:104 | Powers of a number in [0, 1] stay in [0, 1]. |
| Materials.R0Bounds | RTIOW/libs/material.h:101-102 | For a positive index, Schlick's normal-incidence reflectance lies in [0, 1). |
| Materials.R0Reciprocal | RTIOW/libs/material.h:101-102 | R0 is the same for an index and its reciprocal, so inside and outside agree at normal incidence. |
| Materials.Reflectance | RTIOW/libs/material.h:98-105 | Schlick's reflectance equals R0 at cosine 1 and 1 at cosine 0. For a positive index it lies between R0 and 1 for every cosine in [0, 1]. |
| Colors.Quantize | RTIOW/libs/color.h:22-25 | A channel is a byte. It is 0 for non-positive intensities and 255 from 0.999 up, and in between it is the whole part of 256 times the intensity. |
| Colors.QuantizeMonotone | RTIOW/libs/color.h:22-25 | A brighter intensity never quantises to a smaller byte. |
| Colors.WriteColor | RTIOW/libs/color.h:9-26 | Each emitted channel is its own sum times `1 / samples_per_pixel`, quantised by `Colors.Quantize`. So every channel is in [0, 255], and a non-positive sum over a positive sample count gives 0. |
| Colors.ChannelsIndependent | RTIOW/libs/color.h:11-25 | Each output channel depends only on its own input channel. |
| Colors.WriteColorMonotone | RTIOW/libs/color.h:15-25 | A component-wise brighter sum never gives a darker pixel. |
| Colors.SumOfCopies | RTIOW/libs/camera.h:40-46 | Accumulating n copies of one colour from black gives n times that colour. |
| Colors.UniformSamplesAverage | RTIOW/libs/color.h:15-19 | When every sample has the same colour, the division by the sample count undoes the accumulation and the pixel is that colour quantised. |
| Cameras.ImageHeight | RTIOW/libs/camera.h:101 | The image has at least one row, and otherwise as many as the whole part of width over aspect ratio. |
| Cameras.MakeFrame | RTIOW/libs/camera.h:112-114 | For an aimable camera, u, v, w are orthonormal, w points along `lookfrom - lookat`, and u is orthogonal to `vup`. |
| Cameras.ViewportHeightPositive | RTIOW/libs/camera.h:106-107 | A field of view strictly between 0 and 180 degrees and a positive focus distance give a viewport of positive height. |
| Cameras.ViewportEdgesInPlane | RTIOW/libs/camera.h:117-118 | Both viewport edges are orthogonal to w. |
| Cameras.Initialize | RTIOW/libs/camera.h:99-134 | The view has at least one row, is centred at `lookfrom`, and has an orthonormal frame. Pixel steps and defocus-disk axes lie in the plane orthogonal to w. |
| Cameras.DeltasInPlane | RTIOW/libs/camera.h:121-122 | The pixel steps and the defocus-disk axes are orthogonal to w. |
| Cameras.GetRay | RTIOW/libs/camera.h:136-148 | The ray starts at the camera centre when the defocus angle is at most 0, and at the defocus-disk sample otherwise. At parameter 1 it reaches the jittered sample of its pixel. |
| Cameras.PixelCenterFormula | RTIOW/libs/camera.h:127 | Pixel (i, j) is centred at `upper_left + (i + 1/2) du + (j + 1/2) dv`. |
| Cameras.SampleInPixel | RTIOW/libs/camera.h:141-142 | With jitter (px, py), the sample of pixel (i, j) is `upper_left + (i + px) du + (j + py) dv`, so draws in [0, 1) stay in the pixel's own cell. |
| Cameras.FocusPlane | RTIOW/libs/camera.h:125 | Every camera ray's direction has component `-focus_distance` along w, whatever the pixel, jitter and disk point. So all rays of a pixel meet on the plane of perfect focus at parameter 1. |
| Cameras.UpperLeftDepth | RTIOW/libs/camera.h:125 | The viewport's upper-left corner lies `focus_distance` in front of the camera along -w. |
| Cameras.PixelSampleSquare | RTIOW/libs/camera.h:150-157 | Measured from the pixel's upper-left corner, the sample lies at the fractions `px` and `py` of the two pixel deltas. Draws of one half give the pixel centre. |
| Cameras.DefocusDiskSample | RTIOW/libs/camera.h:159-165 | The disk point (0, 0) is the camera centre. When the disk axes are orthogonal to w, every disk sample lies in the plane of the camera centre orthogonal to w. |
| Cameras.DefaultImageSquare | RTIOW/libs/camera.h:15-16 | The default camera (aspect 1, width 100) renders 100 rows. |
| Rendering.Background | RTIOW/libs/camera.h:191-194 | The sky blends white into (0.5, 0.7, 1): red in [0.5, 1], green in [0.7, 1], blue 1. |
| Rendering.SkyStraightUp | RTIOW/libs/camera.h:191-194 | A ray pointing straight up sees exactly (0.5, 0.7, 1). |
| Rendering.SkyStraightDown | RTIOW/libs/camera.h:191-194 | A ray pointing straight down sees exactly white. |
| Rendering.RayColor | RTIOW/libs/camera.h:172-175 | No light is gathered once the depth is spent: the colour is black for every depth at most 0. |
| Rendering.MissShowsSky | RTIOW/libs/camera.h:177-194 | At a positive depth, a ray that meets no sphere beyond 0.001 shows the sky. |
| Rendering.DepthOneSeesOnlySky | RTIOW/libs/camera.h:167-195 | With one bounce left, a ray that meets a sphere beyond 0.001 is black, and any other ray shows the sky. |
| Rendering.RayColorBounce | RTIOW/libs/camera.h:177-185 | At a positive depth the scene query reports a hit exactly when some sphere is met beyond 0.001. The reported hit is the nearest such point on the ray, and its material can be asked to scatter the ray. |
| Rendering.HitColor | RTIOW/libs/camera.h:178-188 | At a positive depth, a ray that hits the scene is black when the material absorbs it. When the material scatters it, the new ray has a non-zero direction and the colour is the attenuation times the colour seen along that ray with one bounce fewer, using the draw reserved for this depth. |
| Rendering.RayColorBounded | RTIOW/libs/camera.h:183-188 | When every albedo is in [0, 1], every ray colour is in [0, 1] at every depth. |
| Rendering.SceneHit | RTIOW/libs/camera.h:178 | The query over (0.001, infinity) reports a hit exactly when some sphere is hit there. On a miss the placeholder record is left alone; on a hit the record is that of the first sphere at the smallest distance. |
| Rendering.SceneHitFacts | RTIOW/libs/camera.h:178 | A scene hit lies beyond 0.001, has a unit normal, and carries the material of one of the spheres. |
| Rendering.ScatterKeepsDirection | RTIOW/libs/camera.h:183-185 | A scattered ray has a non-zero direction, so the recursion is always shading a proper ray. |
| Rendering.CameraRayNonZero | RTIOW/libs/camera.h:144-147 | A camera with non-zero focus distance never shoots a zero-direction ray. |
| Rendering.SampleColors | RTIOW/libs/camera.h:42-46 | One colour per sample draw, in order, each the shading of that sample's camera ray. |
| Rendering.PixelColor | RTIOW/libs/camera.h:40-48 | A pixel is the quantised mean of its samples: when every sample gathers the same colour, the pixel is that colour quantised. The same loop is the body of each task of the parallel render (lines 69-77). |
| Rendering.NoBouncesBlackImage | RTIOW/libs/camera.h:172-175 | With `max_depth <= 0` every pixel is black. |
| Rendering.SamplesBounded | RTIOW/libs/camera.h:42-46 | With albedos in [0, 1], every sample colour is in [0, 1]. |
| Rendering.RenderRows | RTIOW/libs/camera.h:28-53 | The stream render emits width times height pixels. Pixel (i, j) is the `j * width + i`-th one written, and the q-th one written is pixel (q mod width, q div width). |
| Rendering.RowMajorInverse | RTIOW/libs/camera.h:34-38 | The stream position determines the pixel: dividing by the width gives the row and the remainder gives the column. |
| Rendering.StrideInBuffer | RTIOW/libs/camera.h:59-68 | For an image whose byte count `height * width * 3` fits in a 32-bit `int`, every pixel's three bytes at `(j * width + i) * 3` fit in the buffer, the offset itself fits in an `int`, and the offset determines the pixel. |
| Rendering.StridesDisjoint | RTIOW/libs/camera.h:67-78 | Distinct pixels write disjoint three-byte slots, so the tasks never write the same byte. |
| Rendering.RenderBuffer | RTIOW/libs/camera.h:55-87 | In any order in which the tasks run (repeats allowed), once every pixel's task has run, every pixel's slot holds its colour. |
| Rendering.RunTasks | RTIOW/libs/camera.h:61-80 | The enqueued pixel tasks, run one at a time in any order that covers every pixel (repeats allowed), leave a `height * width * 3` buffer in which every pixel's slot holds that pixel's colour. |
| Rendering.RendersAgree | RTIOW/libs/camera.h:28-87 | A pixel stream and a byte buffer that hold the same colour for every pixel are the same image: bytes `3q`, `3q+1` and `3q+2` of the buffer are the channels of the q-th streamed pixel. |
| Rendering.RenderBoth | RTIOW/libs/camera.h:28-87 | Given the same draws for every pixel, running the stream render and the buffer render (tasks in any covering order) gives the same image: the q-th streamed pixel is pixel (q mod width, q div width), and bytes `3q`, `3q+1` and `3q+2` of the buffer are its channels. |

## Left out

- `vec3.h` and `interval.h` are not part of this model. The `Vectors` and `Intervals` modules give the usual definitions of the operations the core calls: the vector operations, `reflect`, `refract`, `unit_vector`, `near_zero`, `contains`, `surrounds` and `clamp`.
- The buffer overload `write_color(buffer, stride, ...)` is not part of this model either. It is taken to quantise like the stream overload and to store red, green and blue at `stride`, `stride + 1` and `stride + 2`.
- `thread_pool.h` and concurrency are not modelled. Each pixel task of the parallel `render` runs atomically, in an arbitrary order that covers every pixel. `Rendering.StridesDisjoint` is why interleaving cannot change the result. The completed-task counter is not modelled.
- Input/output is not modelled: the PPM header and text output, `stbi_write_jpg`, the progress messages on `std::clog`, and `main.cpp`'s scene set-up.
- IEEE double behaviour is not modelled: rounding, overflow, infinities other than the interval bound, and NaN. The one NaN case the source relies on, a zero-direction ray meeting a sphere, is modelled by its outcome: no hit.
- The state of `rand()` is not modelled, and neither are the rejection loops of `random_unit_vector`/`random_in_unit_disk`. Their results are parameters.
- `pow(x, 5)` is modelled as exact multiplication.
- The uninitialised `hit_record` and the `new`-allocated buffer are modelled as a fixed placeholder record and a zero-filled buffer. Both are fully overwritten before use.
- Only spheres are modelled as `hittable`, and the three materials as `material`. The virtual dispatch is a `match`.
- Spheres.Hit: requires a non-zero radius, since the source divides by it for the outward normal.
- Colors.WriteColor: requires a non-zero sample count, since the source divides by it. Its monotonicity and zero-for-non-positive facts are stated for positive counts only.
- Cameras.Initialize: requires a non-zero aspect ratio and width and an aimable frame (`vup` not parallel to `lookfrom - lookat`), so that every division and `unit_vector` in it is defined.
- Rendering.RayColor: its own contract states only the cut-off at depth 0. Its behaviour at a positive depth is stated by the lemmas `Rendering.MissShowsSky` (a miss shows the sky), `Rendering.RayColorBounce` (which hit is shaded) and `Rendering.HitColor` (absorption gives black, a scatter recurses with one bounce fewer).
- Rendering.RayColor: requires a non-zero ray direction, so that `unit_vector` of the sky branch is defined. It requires every dielectric to have a positive index, since the model of glass assumes one, and every metal to have a fuzz of at most 1, as the metal constructor (`Materials.NewMetal`) guarantees.
- Rendering.RenderRows: requires a positive width and sample count, and a non-zero focus distance so that every camera ray has a direction. Outside these settings the source divides by zero or shoots zero-direction rays.
- Materials.DielectricScatter: requires an index other than 0 and -1, because the ratio and Schlick's R0 divide by these.
- Rendering.RenderBoth: both renders are given the same draws for each pixel. In the program they share one `rand()` stream: the stream render consumes it in row-major order and the threaded render in whatever order the workers run, so the two images agree only up to that reordering of the random numbers.
- Rendering.StrideInBuffer: the buffer size `image_height * image_width * 3` and the offset `(j * image_width + i) * 3` are computed in 32-bit `int`, and they overflow (undefined behaviour) for images of more than about 26,750 by 26,750 pixels. `Rendering.StrideInBuffer`, `Rendering.RunTasks`, `Rendering.RenderBuffer` and `Rendering.RenderBoth` require the byte count to be at most 2^31 - 1, and images beyond that are not modelled.
- Common.Trunc: casts outside the range of `int` are undefined behaviour in C++ and are not modelled. The model truncates any real.
