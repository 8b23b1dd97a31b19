/**
  Hit records (rt/hittable.go). Go's `Material` is an interface with three
  implementations in rt/material.go; here it is the closed datatype below, and
  the scatter functions that dispatch on it live in module Materials. The zero
  `HitRecord{}` of Go has a nil material, modelled as `None`.
 */
module Hittables {
  import opened Vectors
  import opened Rays

  datatype Option<T> = None | Some(value: T)

  datatype Material =
    | Lambertian(albedo: Color)
    | Metal(albedo: Color, fuzz: real)
    | Dielectric(indexOfRefraction: real)

  datatype HitRecord = HitRecord(
    p: Point3,
    t: real,
    normal: Vec3,
    frontFace: bool,
    material: Option<Material>)

  /** Go's zero value `HitRecord{}`. */
  const ZeroRecord: HitRecord :=
    HitRecord(Point3(Zero), 0.0, Zero, false, None)

  /** The `(bool, HitRecord)` pair returned by every `Hit`. */
  datatype HitResult = HitResult(ok: bool, rec: HitRecord)

  /**
    SetFaceNormal: orient the stored normal against the incoming ray and
    remember on which side the ray arrived. The record is a value receiver, so
    the result is a modified copy.
   */
  function SetFaceNormal(h: HitRecord, ray: Ray, outwardNormal: Vec3): (r: HitRecord)
    ensures r.frontFace <==> ray.direction.Dot(outwardNormal) < 0.0
    ensures r.normal == (if r.frontFace then outwardNormal else outwardNormal.Neg())
    ensures !(ray.direction.Dot(r.normal) > 0.0)
    ensures r.normal.LengthSquared() == outwardNormal.LengthSquared()
    ensures r.p == h.p && r.t == h.t && r.material == h.material
  {
    var frontFace := ray.direction.Dot(outwardNormal) < 0.0;
    NegDot(outwardNormal, ray.direction);
    h.(frontFace := frontFace,
       normal := if frontFace then outwardNormal else outwardNormal.Neg())
  }

  /** Orienting twice against the same ray and outward normal changes nothing more. */
  lemma SetFaceNormalIdempotent(h: HitRecord, ray: Ray, outwardNormal: Vec3)
    ensures SetFaceNormal(SetFaceNormal(h, ray, outwardNormal), ray, outwardNormal)
         == SetFaceNormal(h, ray, outwardNormal)
  {
  }
}
