/**
 * The first `Hittable` interface, `hittable.rs`, from before the objects moved behind `Arc` and
 * into their own module. Its face-normal rule is the later one, line for line.
 */
module RcHittable {
  import opened Vec
  import Aabb
  import Hittable

  /** `HitRecord::set_face_normal` of the first version. */
  function SetFaceNormal<M>(rec: Hittable.HitRecord<M>, r: Aabb.Ray, outward: Vec3): (res: Hittable.HitRecord<M>)
    ensures res.frontFace <==> Dot(r.direction, outward) < 0.0
    ensures res.normal == outward || res.normal == Neg(outward)
    ensures Dot(r.direction, res.normal) <= 0.0
    ensures res.(normal := rec.normal, frontFace := rec.frontFace) == rec
  {
    var front := Dot(r.direction, outward) < 0.0;
    rec.(frontFace := front, normal := if front then outward else Neg(outward))
  }

  /** The two versions orient every record alike. */
  lemma SameAsLater<M>(rec: Hittable.HitRecord<M>, r: Aabb.Ray, outward: Vec3)
    ensures SetFaceNormal(rec, r, outward) == Hittable.SetFaceNormal(rec, r, outward)
  {
  }
}
