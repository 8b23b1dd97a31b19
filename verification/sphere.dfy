/**
  Spheres (rt/sphere.go). `Hit` solves |At(t) - center|^2 = radius^2, a
  quadratic a*t^2 + 2*halfB*t + c = 0 in the ray parameter, and returns the
  smaller root when it lies in the closed window [tMin, tMax], the larger
  one otherwise, and no hit when neither does or the discriminant is negative.
 */
module Spheres {
  import opened RealMath
  import opened Vectors
  import opened Rays
  import opened Hittables

  datatype Sphere = Sphere(center: Point3, radius: real, material: Material)

  // The coefficients of the quadratic, named as in the source.

  function Oc(s: Sphere, ray: Ray): Vec3 {
    ray.origin.vec.Sub(s.center.vec)
  }

  function QuadA(ray: Ray): real {
    ray.direction.LengthSquared()
  }

  function HalfB(s: Sphere, ray: Ray): real {
    Oc(s, ray).Dot(ray.direction)
  }

  function QuadC(s: Sphere, ray: Ray): real {
    Oc(s, ray).LengthSquared() - s.radius * s.radius
  }

  function Discriminant(s: Sphere, ray: Ray): real {
    HalfB(s, ray) * HalfB(s, ray) - QuadA(ray) * QuadC(s, ray)
  }

  /** The value of the quadratic at `t`. */
  function Quadratic(s: Sphere, ray: Ray, t: real): real {
    QuadA(ray) * t * t + 2.0 * HalfB(s, ray) * t + QuadC(s, ray)
  }

  /** The smaller root, tried first. */
  function NearRoot(s: Sphere, ray: Ray, sqrt: real -> real): real
    requires ray.direction != Zero
  {
    LengthSquaredZeroIff(ray.direction);
    (-HalfB(s, ray) - sqrt(Discriminant(s, ray))) / QuadA(ray)
  }

  /** The larger root, the fallback. */
  function FarRoot(s: Sphere, ray: Ray, sqrt: real -> real): real
    requires ray.direction != Zero
  {
    LengthSquaredZeroIff(ray.direction);
    (-HalfB(s, ray) + sqrt(Discriminant(s, ray))) / QuadA(ray)
  }

  /** The closed window test the source writes as `!(root < tMin || tMax < root)`. */
  predicate InWindow(t: real, tMin: real, tMax: real) {
    !(t < tMin || tMax < t)
  }

  /** The record built for a root: point, parameter, material, and the face-oriented normal. */
  function RecordAt(s: Sphere, ray: Ray, t: real): (rec: HitRecord)
    requires s.radius != 0.0
    ensures rec.t == t && rec.p == ray.At(t) && rec.material == Some(s.material)
  {
    var p := ray.At(t);
    var outwardNormal := p.vec.Sub(s.center.vec).Div(s.radius);
    SetFaceNormal(HitRecord(p, t, Zero, false, Some(s.material)), ray, outwardNormal)
  }

  /**
    Sphere.Hit. A zero direction (a = 0) or a zero radius divide by zero in
    the source and are excluded here.
   */
  function Hit(s: Sphere, ray: Ray, tMin: real, tMax: real, sqrt: real -> real): (res: HitResult)
    requires ray.direction != Zero && s.radius != 0.0
    ensures res.ok ==> InWindow(res.rec.t, tMin, tMax) && res.rec == RecordAt(s, ray, res.rec.t)
    ensures res.ok ==> res.rec.t == NearRoot(s, ray, sqrt) || res.rec.t == FarRoot(s, ray, sqrt)
    ensures !res.ok ==> res.rec == ZeroRecord
  {
    if Discriminant(s, ray) < 0.0 then
      HitResult(false, ZeroRecord)
    else
      var root := NearRoot(s, ray, sqrt);
      if !InWindow(root, tMin, tMax) then
        var root := FarRoot(s, ray, sqrt);
        if !InWindow(root, tMin, tMax) then
          HitResult(false, ZeroRecord)
        else
          HitResult(true, RecordAt(s, ray, root))
      else
        HitResult(true, RecordAt(s, ray, root))
  }

  // ---------------------------------------------------------------------
  // Geometry of the hit

  /** A point of the ray is on the sphere exactly when `t` is a root of the quadratic. */
  predicate OnSurface(s: Sphere, ray: Ray, t: real) {
    ray.At(t).vec.Sub(s.center.vec).LengthSquared() == s.radius * s.radius
  }

  lemma OnSurfaceIffRoot(s: Sphere, ray: Ray, t: real)
    ensures OnSurface(s, ray, t) <==> Quadratic(s, ray, t) == 0.0
  {
    SurfaceDistance(s, ray, t);
    ZeroIffEqual(ray.At(t).vec.Sub(s.center.vec).LengthSquared(), s.radius * s.radius, Quadratic(s, ray, t));
  }

  /** The quadratic at `t` is the squared distance of At(t) from the centre, less radius^2. */
  lemma SurfaceDistance(s: Sphere, ray: Ray, t: real)
    ensures Quadratic(s, ray, t) == ray.At(t).vec.Sub(s.center.vec).LengthSquared() - s.radius * s.radius
  {
    assert ray.At(t).vec.Sub(s.center.vec) == Oc(s, ray).Add(ray.direction.Mul(t));
    DistanceAlongLine(Oc(s, ray), ray.direction, t, s.radius * s.radius);
  }

  lemma ZeroIffEqual(x: real, y: real, q: real)
    requires q == x - y
    ensures x == y <==> q == 0.0
  {
  }

  /** |oc + t*d|^2 - rr expands to the polynomial |d|^2*t^2 + 2*(oc.d)*t + (|oc|^2 - rr) in t. */
  lemma DistanceAlongLine(oc: Vec3, d: Vec3, t: real, rr: real)
    ensures oc.Add(d.Mul(t)).LengthSquared() - rr == d.LengthSquared() * t * t + 2.0 * oc.Dot(d) * t + (oc.LengthSquared() - rr)
  {
    LengthSquaredAdd(oc, d.Mul(t));
    DotMul(d, t, oc);
    LengthSquaredMul(d, t);
  }

  /** The roots satisfy a*root = -halfB -+ sqrt(discriminant). */
  lemma RootEquations(s: Sphere, ray: Ray, sqrt: real -> real)
    requires ray.direction != Zero
    ensures 0.0 < QuadA(ray)
    ensures QuadA(ray) * NearRoot(s, ray, sqrt) == -HalfB(s, ray) - sqrt(Discriminant(s, ray))
    ensures QuadA(ray) * FarRoot(s, ray, sqrt) == -HalfB(s, ray) + sqrt(Discriminant(s, ray))
  {
    LengthSquaredZeroIff(ray.direction);
    DivMul(-HalfB(s, ray) - sqrt(Discriminant(s, ray)), QuadA(ray));
    DivMul(-HalfB(s, ray) + sqrt(Discriminant(s, ray)), QuadA(ray));
  }

  /** A negative discriminant: the ray misses the sphere everywhere. */
  lemma NoSurfacePoint(s: Sphere, ray: Ray, t: real)
    requires ray.direction != Zero
    requires Discriminant(s, ray) < 0.0
    ensures !OnSurface(s, ray, t)
  {
    OnSurfaceIffRoot(s, ray, t);
    LengthSquaredZeroIff(ray.direction);
    NoRealRoot(QuadA(ray), HalfB(s, ray), QuadC(s, ray), t);
  }

  /** Otherwise the ray meets the sphere exactly at the two roots, the near one first. */
  lemma SurfacePointsAreRoots(s: Sphere, ray: Ray, t: real, sqrt: real -> real)
    requires IsSqrt(sqrt)
    requires ray.direction != Zero
    requires !(Discriminant(s, ray) < 0.0)
    ensures OnSurface(s, ray, t) <==> t == NearRoot(s, ray, sqrt) || t == FarRoot(s, ray, sqrt)
    ensures NearRoot(s, ray, sqrt) <= FarRoot(s, ray, sqrt)
  {
    OnSurfaceIffRoot(s, ray, t);
    RootsOfQuadratic(s, ray, t, sqrt);
  }

  /** The two roots are the zeros of the quadratic, the near one first. */
  lemma RootsOfQuadratic(s: Sphere, ray: Ray, t: real, sqrt: real -> real)
    requires IsSqrt(sqrt)
    requires ray.direction != Zero
    requires !(Discriminant(s, ray) < 0.0)
    ensures Quadratic(s, ray, t) == 0.0 <==> t == NearRoot(s, ray, sqrt) || t == FarRoot(s, ray, sqrt)
    ensures NearRoot(s, ray, sqrt) <= FarRoot(s, ray, sqrt)
  {
    LengthSquaredZeroIff(ray.direction);
    SqrtDiscriminant(s, ray, sqrt);
    QuadraticRootsOrdered(QuadA(ray), HalfB(s, ray), QuadC(s, ray), sqrt(Discriminant(s, ray)),
                          NearRoot(s, ray, sqrt), FarRoot(s, ray, sqrt), t);
  }

  /** The square root of a non-negative discriminant, in terms of the coefficients. */
  lemma SqrtDiscriminant(s: Sphere, ray: Ray, sqrt: real -> real)
    requires IsSqrt(sqrt)
    requires !(Discriminant(s, ray) < 0.0)
    ensures var sd := sqrt(Discriminant(s, ray));
            0.0 <= sd && sd * sd == HalfB(s, ray) * HalfB(s, ray) - QuadA(ray) * QuadC(s, ray)
  {
  }

  // Facts about a*t^2 + 2*hb*t + c over plain reals.

  /** With sd a square root of the discriminant, the roots are r1 and r2 and no others. */
  lemma QuadraticRoots(a: real, hb: real, c: real, sd: real, r1: real, r2: real, t: real)
    requires a != 0.0
    requires sd * sd == hb * hb - a * c
    requires a * r1 == -hb - sd && a * r2 == -hb + sd
    ensures a * t * t + 2.0 * hb * t + c == 0.0 <==> (t == r1 || t == r2)
  {
    var q := a * t * t + 2.0 * hb * t + c;
    var u := a * (t - r1);
    var w := a * (t - r2);
    assert u == a * t + hb + sd;
    assert w == a * t + hb - sd;
    assert a * q == u * w;
    if t != r1 && t != r2 {
      MulNonZero(a, t - r1, u);
      MulNonZero(a, t - r2, w);
      MulNonZero(u, w, a * q);
    }
  }

  /** Both facts at once, for a positive leading coefficient, with the roots in the source's division form. */
  lemma QuadraticRootsOrdered(a: real, hb: real, c: real, sd: real, r1: real, r2: real, t: real)
    requires 0.0 < a && 0.0 <= sd
    requires sd * sd == hb * hb - a * c
    requires r1 == (-hb - sd) / a && r2 == (-hb + sd) / a
    ensures a * t * t + 2.0 * hb * t + c == 0.0 <==> (t == r1 || t == r2)
    ensures r1 <= r2
  {
    DivMul(-hb - sd, a);
    DivMul(-hb + sd, a);
    QuadraticRoots(a, hb, c, sd, r1, r2, t);
    RootsOrdered(a, hb, sd, r1, r2);
  }

  /** A negative discriminant leaves the quadratic without real roots. */
  lemma NoRealRoot(a: real, hb: real, c: real, t: real)
    requires a != 0.0
    requires hb * hb - a * c < 0.0
    ensures a * t * t + 2.0 * hb * t + c != 0.0
  {
    var q := a * t * t + 2.0 * hb * t + c;
    var e := a * t + hb;
    assert a * q == e * e - (hb * hb - a * c);
    SquareNonNegative(e, e * e);
  }

  /** With a > 0 and sd >= 0 the root taken with -sd is the smaller one. */
  lemma RootsOrdered(a: real, hb: real, sd: real, r1: real, r2: real)
    requires 0.0 < a && 0.0 <= sd
    requires a * r1 == -hb - sd && a * r2 == -hb + sd
    ensures r1 <= r2
  {
    assert a * (r2 - r1) == 2.0 * sd;
    if r2 < r1 {
      MulPositive(a, r1 - r2, -2.0 * sd);
    }
  }

  // ---------------------------------------------------------------------
  // What Hit returns

  /**
    The root preference of the source: a negative discriminant misses; the
    near root wins whenever it is in the window; the far root is used only
    when the near one is not; with neither in the window there is no hit.
   */
  lemma HitRootPreference(s: Sphere, ray: Ray, tMin: real, tMax: real, sqrt: real -> real)
    requires ray.direction != Zero && s.radius != 0.0
    ensures Discriminant(s, ray) < 0.0 ==> !Hit(s, ray, tMin, tMax, sqrt).ok
    ensures !(Discriminant(s, ray) < 0.0) && InWindow(NearRoot(s, ray, sqrt), tMin, tMax) ==>
              Hit(s, ray, tMin, tMax, sqrt).ok && Hit(s, ray, tMin, tMax, sqrt).rec.t == NearRoot(s, ray, sqrt)
    ensures !(Discriminant(s, ray) < 0.0) && !InWindow(NearRoot(s, ray, sqrt), tMin, tMax) &&
            InWindow(FarRoot(s, ray, sqrt), tMin, tMax) ==>
              Hit(s, ray, tMin, tMax, sqrt).ok && Hit(s, ray, tMin, tMax, sqrt).rec.t == FarRoot(s, ray, sqrt)
    ensures !InWindow(NearRoot(s, ray, sqrt), tMin, tMax) && !InWindow(FarRoot(s, ray, sqrt), tMin, tMax) ==>
              !Hit(s, ray, tMin, tMax, sqrt).ok
  {
  }

  /**
    Hit finds the first point of the ray on the sphere inside the window: the
    returned parameter is on the surface and no surface point lies in
    [tMin, t); and it misses only when no surface point lies in [tMin, tMax].
   */
  lemma HitIsFirstSurfacePoint(s: Sphere, ray: Ray, tMin: real, tMax: real, sqrt: real -> real)
    requires IsSqrt(sqrt)
    requires ray.direction != Zero && s.radius != 0.0
    ensures Hit(s, ray, tMin, tMax, sqrt).ok ==>
              OnSurface(s, ray, Hit(s, ray, tMin, tMax, sqrt).rec.t) &&
              forall t :: tMin <= t < Hit(s, ray, tMin, tMax, sqrt).rec.t ==> !OnSurface(s, ray, t)
    ensures !Hit(s, ray, tMin, tMax, sqrt).ok ==>
              forall t :: InWindow(t, tMin, tMax) ==> !OnSurface(s, ray, t)
  {
    var res := Hit(s, ray, tMin, tMax, sqrt);
    if Discriminant(s, ray) < 0.0 {
      forall t | InWindow(t, tMin, tMax)
        ensures !OnSurface(s, ray, t)
      {
        NoSurfacePoint(s, ray, t);
      }
    } else {
      var near, far := NearRoot(s, ray, sqrt), FarRoot(s, ray, sqrt);
      SurfacePointsAreRoots(s, ray, near, sqrt);
      if res.ok {
        SurfacePointsAreRoots(s, ray, res.rec.t, sqrt);
        forall t | tMin <= t < res.rec.t
          ensures !OnSurface(s, ray, t)
        {
          SurfacePointsAreRoots(s, ray, t, sqrt);
        }
      } else {
        forall t | InWindow(t, tMin, tMax)
          ensures !OnSurface(s, ray, t)
        {
          SurfacePointsAreRoots(s, ray, t, sqrt);
        }
      }
    }
  }

  /**
    Shrinking the upper bound of the window keeps a hit that is still inside
    it, unchanged, and turns one beyond it into a miss. This is what lets the
    closest-hit scan of a list pass its running bound to each object.
   */
  lemma HitNarrowing(s: Sphere, ray: Ray, tMin: real, tMax: real, bound: real, sqrt: real -> real)
    requires IsSqrt(sqrt)
    requires ray.direction != Zero && s.radius != 0.0
    requires bound <= tMax
    ensures Hit(s, ray, tMin, bound, sqrt) ==
              if Hit(s, ray, tMin, tMax, sqrt).ok && Hit(s, ray, tMin, tMax, sqrt).rec.t <= bound
              then Hit(s, ray, tMin, tMax, sqrt)
              else HitResult(false, ZeroRecord)
  {
    if !(Discriminant(s, ray) < 0.0) {
      SurfacePointsAreRoots(s, ray, 0.0, sqrt);
    }
  }

  /** The normal of a hit is a unit vector (for either sign of the radius). */
  lemma HitNormalIsUnit(s: Sphere, ray: Ray, tMin: real, tMax: real, sqrt: real -> real)
    requires IsSqrt(sqrt)
    requires ray.direction != Zero && s.radius != 0.0
    ensures Hit(s, ray, tMin, tMax, sqrt).ok ==> Hit(s, ray, tMin, tMax, sqrt).rec.normal.LengthSquared() == 1.0
  {
    var res := Hit(s, ray, tMin, tMax, sqrt);
    if res.ok {
      HitIsFirstSurfacePoint(s, ray, tMin, tMax, sqrt);
      var v := ray.At(res.rec.t).vec.Sub(s.center.vec);
      UnitLength(v, s.radius);
    }
  }

  /** On a hit the outward normal is the radius vector over the radius, oriented against the ray. */
  lemma HitNormalOrientation(s: Sphere, ray: Ray, tMin: real, tMax: real, sqrt: real -> real)
    requires ray.direction != Zero && s.radius != 0.0
    ensures var res := Hit(s, ray, tMin, tMax, sqrt);
            var outward := res.rec.p.vec.Sub(s.center.vec).Div(s.radius);
            res.ok ==> (res.rec.frontFace <==> ray.direction.Dot(outward) < 0.0) &&
                       res.rec.normal == (if res.rec.frontFace then outward else outward.Neg()) &&
                       !(ray.direction.Dot(res.rec.normal) > 0.0)
  {
  }
}
