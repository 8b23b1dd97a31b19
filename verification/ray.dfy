/**
  Rays (rt/ray.go): an origin and a direction that is not normalised.
  `At` takes the ray by value, so evaluating it never changes the ray; a
  datatype member function has that property by construction.
 */
module Rays {
  import opened Vectors

  datatype Ray = Ray(origin: Point3, direction: Vec3) {

    /** The point reached after travelling `t` times the direction from the origin. */
    function At(t: real): (p: Point3)
      ensures p.vec.Sub(origin.vec) == direction.Mul(t)
    {
      Point3(origin.vec.Add(direction.Mul(t)))
    }
  }

  /** At(0) is the origin. */
  lemma AtZero(r: Ray)
    ensures r.At(0.0) == r.origin
  {
  }

  /** Two points on a ray differ by the direction scaled by the parameter difference. */
  lemma AtDifference(r: Ray, s: real, t: real)
    ensures r.At(s).vec.Sub(r.At(t).vec) == r.direction.Mul(s - t)
  {
  }

  /** Along a ray the parameter is affine: At(s + t) is At(s) moved by t directions. */
  lemma AtShift(r: Ray, s: real, t: real)
    ensures r.At(s + t).vec == r.At(s).vec.Add(r.direction.Mul(t))
  {
  }
}
