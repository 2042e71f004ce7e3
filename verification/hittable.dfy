/** The record produced by a successful intersection query
    (RTIOW/libs/hittable.h).

    The source forward-declares the material class here; the model keeps the
    material abstract as the type parameter `M`, which the camera instantiates
    with the concrete material variants. */
module Hittable {
  import opened Common
  import opened Vectors
  import opened Rays

  datatype HitRecord<M> = HitRecord(p: Point3, normal: Vec3, mat: M, t: real, frontFace: bool)

  /** `set_face_normal`: records whether the ray arrives from outside
      (it opposes the outward normal) and stores the normal turned to face
      the ray.  The hit point, distance and material are not touched. */
  function SetFaceNormal<M>(rec: HitRecord<M>, r: Ray, outwardNormal: Vec3): (rec': HitRecord<M>)
    ensures rec'.frontFace <==> Dot(r.direction, outwardNormal) < 0.0
    ensures rec'.normal == outwardNormal || rec'.normal == Neg(outwardNormal)
    ensures rec'.frontFace ==> rec'.normal == outwardNormal
    ensures !rec'.frontFace ==> rec'.normal == Neg(outwardNormal)
    ensures Dot(r.direction, rec'.normal) <= 0.0
    ensures LengthSquared(rec'.normal) == LengthSquared(outwardNormal)
    ensures rec'.p == rec.p && rec'.t == rec.t && rec'.mat == rec.mat
  {
    var frontFace := Dot(r.direction, outwardNormal) < 0.0;
    var normal := if frontFace then outwardNormal else Neg(outwardNormal);
    assert Dot(r.direction, Neg(outwardNormal)) == -Dot(r.direction, outwardNormal);
    rec.(frontFace := frontFace, normal := normal)
  }
}
