/** Rays: an origin and a direction (RTIOW/libs/ray.h).  The getters of the
    source are the datatype's destructors `origin` and `direction`. */
module Rays {
  import opened Vectors

  datatype Ray = Ray(origin: Point3, direction: Vec3)

  /** `at(t) = origin + t * direction`: the point reached after travelling
      `t` direction-lengths; it is the origin at `t = 0`, and the offset from
      the origin is exactly `t` times the direction. */
  function At(r: Ray, t: real): (p: Point3)
    ensures Sub(p, r.origin) == Scale(t, r.direction)
    ensures t == 0.0 ==> p == r.origin
    ensures t == 1.0 ==> p == Add(r.origin, r.direction)
  {
    Add(r.origin, Scale(t, r.direction))
  }

  /** `at` is affine: the displacement between two points on a ray is the
      difference of their parameters times the direction. */
  lemma AtAffine(r: Ray, t1: real, t2: real)
    ensures Sub(At(r, t1), At(r, t2)) == Scale(t1 - t2, r.direction)
  {
    var d := r.direction;
    assert t1 * d.x - t2 * d.x == (t1 - t2) * d.x;
    assert t1 * d.y - t2 * d.y == (t1 - t2) * d.y;
    assert t1 * d.z - t2 * d.z == (t1 - t2) * d.z;
  }
}
