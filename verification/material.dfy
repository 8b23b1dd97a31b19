/**
  Materials (rt/material.go): how a ray that hit a surface scatters. The
  three implementations of Go's `Material` interface are the constructors of
  `Hittables.Material`; `Scatter` dispatches on them. Each scatter call of the
  source takes fresh random numbers from the global generator; here they
  arrive as one `Draw`.
 */
module Materials {
  import opened RealMath
  import opened Vectors
  import opened Rays
  import opened Hittables

  /**
    The random numbers one scatter call may consume: `unitVec` stands for
    RandUnitVec3() (Lambertian), `inSphere` for RandVec3InUnitSphere()
    (Metal), `uniform` for RandFloat() (Dielectric).
   */
  datatype Draw = Draw(unitVec: Vec3, inSphere: Vec3, uniform: real)

  /** The `(bool, Ray, Color)` triple returned by `Scatter`. */
  datatype ScatterResult = ScatterResult(didScatter: bool, scattered: Ray, attenuation: Color)

  /** Materials whose scatter is defined: a dielectric's index may be neither 0 nor -1 (both divide by zero). */
  predicate ValidMaterial(m: Material) {
    m.Dielectric? ==> m.indexOfRefraction != 0.0 && m.indexOfRefraction != -1.0
  }

  // ---------------------------------------------------------------------
  // reflect, refract, reflectance

  /** Mirror `v` about the plane with normal `n`. */
  function Reflect(v: Vec3, n: Vec3): Vec3 {
    v.Sub(n.Mul(2.0 * v.Dot(n)))
  }

  /** Bend the unit direction `uv` through a surface with normal `n` (Snell's law). */
  function Refract(uv: Vec3, n: Vec3, etaiOverEtat: real, sqrt: real -> real): Vec3 {
    var rOutPerp := RefractPerp(uv, n, etaiOverEtat);
    var rOutParallel := n.Mul(-sqrt(Abs(1.0 - rOutPerp.LengthSquared())));
    rOutPerp.Add(rOutParallel)
  }

  /** The component of the refracted direction along the surface. */
  function RefractPerp(uv: Vec3, n: Vec3, etaiOverEtat: real): Vec3 {
    var cosTheta := Min(uv.Neg().Dot(n), 1.0);
    uv.Add(n.Mul(cosTheta)).Mul(etaiOverEtat)
  }

  /** Schlick's approximation of the reflectance. */
  function Reflectance(cosine: real, refIdx: real): real
    requires refIdx != -1.0
  {
    var r0 := R0(refIdx);
    r0 + (1.0 - r0) * Pow5(1.0 - cosine)
  }

  /** Reflectance at normal incidence, ((1 - k) / (1 + k))^2. */
  function R0(refIdx: real): real
    requires refIdx != -1.0
  {
    var q := (1.0 - refIdx) / (1.0 + refIdx);
    q * q
  }

  // ---------------------------------------------------------------------
  // The three materials

  function LambertianScatter(albedo: Color, rec: HitRecord, draw: Draw): (res: ScatterResult)
    ensures res.didScatter && res.scattered.origin == rec.p && res.attenuation == albedo
  {
    var scatterDir := rec.normal.Add(draw.unitVec);
    var scatterDir := if scatterDir.NearZero() then rec.normal else scatterDir;
    ScatterResult(true, Ray(rec.p, scatterDir), albedo)
  }

  function MetalScatter(albedo: Color, fuzz: real, inRay: Ray, rec: HitRecord, draw: Draw, sqrt: real -> real): (res: ScatterResult)
    requires IsSqrt(sqrt) && inRay.direction != Zero
    ensures res.didScatter <==> res.scattered.direction.Dot(rec.normal) > 0.0
    ensures res.scattered.origin == rec.p && res.attenuation == albedo
  {
    var reflected := Reflect(UnitVector(inRay.direction, sqrt), rec.normal);
    var scattered := Ray(rec.p, reflected.Add(draw.inSphere.Mul(fuzz)));
    var didScatter := scattered.direction.Dot(rec.normal) > 0.0;
    ScatterResult(didScatter, scattered, albedo)
  }

  /** The refraction ratio: 1/ior entering the front face, ior leaving through the back. */
  function RefractionRatio(ior: real, frontFace: bool): real
    requires ior != 0.0
  {
    if frontFace then 1.0 / ior else ior
  }

  /** The cosine of the incidence angle, capped at 1. */
  function CosTheta(unitDirection: Vec3, normal: Vec3): real {
    Min(unitDirection.Neg().Dot(normal), 1.0)
  }

  /** Total internal reflection: ratio * sin(theta) > 1, with sin(theta) = sqrt(1 - cos^2). */
  predicate CannotRefract(ratio: real, cosTheta: real, sqrt: real -> real) {
    ratio * sqrt(1.0 - cosTheta * cosTheta) > 1.0
  }

  function DielectricScatter(ior: real, inRay: Ray, rec: HitRecord, draw: Draw, sqrt: real -> real): (res: ScatterResult)
    requires IsSqrt(sqrt) && inRay.direction != Zero
    requires ior != 0.0 && ior != -1.0
    ensures res.didScatter && res.scattered.origin == rec.p && res.attenuation == NewColor(1.0, 1.0, 1.0)
  {
    var attenuation := NewColor(1.0, 1.0, 1.0);
    var refractionRatio := RefractionRatio(ior, rec.frontFace);
    var unitDirection := UnitVector(inRay.direction, sqrt);
    var cosTheta := CosTheta(unitDirection, rec.normal);
    var direction :=
      if CannotRefract(refractionRatio, cosTheta, sqrt) || Reflectance(cosTheta, refractionRatio) > draw.uniform
      then Reflect(unitDirection, rec.normal)
      else Refract(unitDirection, rec.normal, refractionRatio, sqrt);
    ScatterResult(true, Ray(rec.p, direction), attenuation)
  }

  /** Material.Scatter, dispatched on the closed set of materials. */
  function Scatter(m: Material, inRay: Ray, rec: HitRecord, draw: Draw, sqrt: real -> real): (res: ScatterResult)
    requires IsSqrt(sqrt) && inRay.direction != Zero && ValidMaterial(m)
    ensures res.scattered.origin == rec.p
    ensures m.Lambertian? || m.Dielectric? ==> res.didScatter
    ensures res.attenuation == (if m.Dielectric? then NewColor(1.0, 1.0, 1.0) else m.albedo)
  {
    match m
    case Lambertian(albedo) => LambertianScatter(albedo, rec, draw)
    case Metal(albedo, fuzz) => MetalScatter(albedo, fuzz, inRay, rec, draw, sqrt)
    case Dielectric(ior) => DielectricScatter(ior, inRay, rec, draw, sqrt)
  }

  // ---------------------------------------------------------------------
  // Mirror reflection

  /**
    About a unit normal, reflection negates the normal component, preserves
    the length, and undoes itself.
   */
  lemma ReflectFacts(v: Vec3, n: Vec3)
    requires n.LengthSquared() == 1.0
    ensures Reflect(v, n).Dot(n) == -v.Dot(n)
    ensures Reflect(v, n).LengthSquared() == v.LengthSquared()
    ensures Reflect(Reflect(v, n), n) == v
  {
    var k := v.Dot(n);
    var m := n.Mul(2.0 * k);
    DotAdd(v, m, n);
    DotMul(n, 2.0 * k, n);
    DotSymmetric(n, v);
    LengthSquaredSub(v, m);
    DotMul(n, 2.0 * k, v);
    LengthSquaredMul(n, 2.0 * k);
    var r := Reflect(v, n);
    assert r.Dot(n) == -k;
    DotMul(n, 2.0 * r.Dot(n), n);
  }

  // ---------------------------------------------------------------------
  // Refraction

  /** The part of `v` along the surface with unit normal `n`. */
  function Tangential(v: Vec3, n: Vec3): Vec3 {
    v.Sub(n.Mul(v.Dot(n)))
  }

  /** For unit vectors the cosine needs no capping: it is -uv.n, which lies in [-1, 1]. */
  lemma CosThetaOfUnits(uv: Vec3, n: Vec3)
    requires uv.LengthSquared() == 1.0 && n.LengthSquared() == 1.0
    ensures CosTheta(uv, n) == -uv.Dot(n)
    ensures -1.0 <= CosTheta(uv, n) <= 1.0
  {
    UnitDotBounded(uv, n);
    NegDot(uv, n);
  }

  /** Against a unit normal, the tangential part is orthogonal to it and carries the rest of the squared length. */
  lemma TangentialFacts(v: Vec3, n: Vec3)
    requires n.LengthSquared() == 1.0
    ensures Tangential(v, n).Dot(n) == 0.0
    ensures Tangential(v, n).LengthSquared() == v.LengthSquared() - v.Dot(n) * v.Dot(n)
  {
    var k := v.Dot(n);
    var m := n.Mul(k);
    DotAdd(v, m, n);
    DotMul(n, k, n);
    LengthSquaredSub(v, m);
    DotMul(n, k, v);
    DotSymmetric(n, v);
    LengthSquaredMul(n, k);
  }

  /**
    Snell's law in vector form: the refracted direction's component along the
    surface is the incident one scaled by the ratio, and it has no component
    along the normal; its squared length is ratio^2 * sin^2(theta).
   */
  lemma RefractPerpFacts(uv: Vec3, n: Vec3, ratio: real)
    requires uv.LengthSquared() == 1.0 && n.LengthSquared() == 1.0
    ensures RefractPerp(uv, n, ratio) == Tangential(uv, n).Mul(ratio)
    ensures RefractPerp(uv, n, ratio).Dot(n) == 0.0
    ensures RefractPerp(uv, n, ratio).LengthSquared() ==
              ratio * ratio * (1.0 - CosTheta(uv, n) * CosTheta(uv, n))
  {
    CosThetaOfUnits(uv, n);
    var w := Tangential(uv, n);
    assert RefractPerp(uv, n, ratio) == w.Mul(ratio);
    TangentialFacts(uv, n);
    DotMul(w, ratio, n);
    MulByZero(ratio, w.Dot(n));
    LengthSquaredMul(w, ratio);
  }

  /**
    The refracted direction leaves through the surface (no component along
    the normal's side), keeps the tangential part, is never zero, and is a
    unit vector whenever the tangential part has squared length at most 1.
   */
  lemma RefractFacts(uv: Vec3, n: Vec3, ratio: real, sqrt: real -> real)
    requires IsSqrt(sqrt)
    requires uv.LengthSquared() == 1.0 && n.LengthSquared() == 1.0
    ensures var r := Refract(uv, n, ratio, sqrt);
            var perp := RefractPerp(uv, n, ratio);
            !(r.Dot(n) > 0.0) &&
            r.Sub(n.Mul(r.Dot(n))) == perp &&
            r.LengthSquared() == perp.LengthSquared() + Abs(1.0 - perp.LengthSquared()) &&
            r != Zero &&
            (perp.LengthSquared() <= 1.0 ==> r.LengthSquared() == 1.0)
  {
    var perp := RefractPerp(uv, n, ratio);
    RefractPerpFacts(uv, n, ratio);
    var p := perp.LengthSquared();
    var e := Abs(1.0 - p);
    var s := sqrt(e);
    assert 0.0 <= s && s * s == e;
    NormalOffset(perp, n, s);
    LengthSquaredZeroIff(perp);
    LengthSquaredZeroIff(Refract(uv, n, ratio, sqrt));
  }

  /**
    Moving a vector orthogonal to the unit normal `n` by -s along `n` gives a
    vector whose normal component is -s, whose tangential part is the original
    vector, and whose squared length gains s^2.
   */
  lemma NormalOffset(perp: Vec3, n: Vec3, s: real)
    requires n.LengthSquared() == 1.0 && perp.Dot(n) == 0.0
    ensures var r := perp.Add(n.Mul(-s));
            r.Dot(n) == -s && r.Sub(n.Mul(r.Dot(n))) == perp &&
            r.LengthSquared() == perp.LengthSquared() + s * s
  {
    var par := n.Mul(-s);
    DotAdd(perp, par, n);
    DotMul(n, -s, n);
    LengthSquaredAdd(perp, par);
    DotMul(n, -s, perp);
    DotSymmetric(n, perp);
    MulByZero(-s, perp.Dot(n));
    LengthSquaredMul(n, -s);
  }

  // ---------------------------------------------------------------------
  // Schlick's reflectance

  /** For a positive index, the normal-incidence reflectance lies in [0, 1). */
  lemma R0Bounds(refIdx: real)
    requires 0.0 < refIdx
    ensures 0.0 <= R0(refIdx) < 1.0
  {
    var q := (1.0 - refIdx) / (1.0 + refIdx);
    DivMul(1.0 - refIdx, 1.0 + refIdx);
    assert (1.0 + refIdx) * (1.0 - q) == 2.0 * refIdx;
    assert (1.0 + refIdx) * (1.0 + q) == 2.0;
    PositiveFactor(1.0 + refIdx, 1.0 - q, 2.0 * refIdx);
    PositiveFactor(1.0 + refIdx, 1.0 + q, 2.0);
    MulPositive(1.0 - q, 1.0 + q, 1.0 - q * q);
    SquareNonNegative(q, q * q);
  }

  /**
    For a cosine in [0, 1] and a positive index the reflectance lies between
    its normal-incidence value and 1, and equals that value at cosine 1.
   */
  lemma ReflectanceBounds(cosine: real, refIdx: real)
    requires 0.0 <= cosine <= 1.0 && 0.0 < refIdx
    ensures 0.0 <= R0(refIdx) <= Reflectance(cosine, refIdx) <= 1.0
    ensures cosine == 1.0 ==> Reflectance(cosine, refIdx) == R0(refIdx)
  {
    R0Bounds(refIdx);
    var r0 := R0(refIdx);
    var p5 := Pow5(1.0 - cosine);
    Pow5UnitInterval(1.0 - cosine);
    MulNonNegative(1.0 - r0, p5, (1.0 - r0) * p5);
    MulNonNegative(1.0 - r0, 1.0 - p5, (1.0 - r0) * (1.0 - p5));
    if cosine == 1.0 {
      assert p5 == 0.0;
      MulByZero(1.0 - r0, p5);
    }
  }

  // ---------------------------------------------------------------------
  // What each material does with a ray

  /** Lambertian: the direction is the normal plus the sample, or the normal alone when that sum nearly vanishes. */
  lemma LambertianDirection(albedo: Color, rec: HitRecord, draw: Draw)
    ensures var d := LambertianScatter(albedo, rec, draw).scattered.direction;
            (d == rec.normal.Add(draw.unitVec) && !d.NearZero()) ||
            (d == rec.normal && rec.normal.Add(draw.unitVec).NearZero())
  {
  }

  /**
    A metal without fuzz is a mirror: the ray leaves along the reflection of
    its unit direction, and it scatters exactly when it arrived against the
    normal.
   */
  lemma MetalMirror(albedo: Color, inRay: Ray, rec: HitRecord, draw: Draw, sqrt: real -> real)
    requires IsSqrt(sqrt) && inRay.direction != Zero
    requires rec.normal.LengthSquared() == 1.0
    ensures var res := MetalScatter(albedo, 0.0, inRay, rec, draw, sqrt);
            res.scattered.direction == Reflect(UnitVector(inRay.direction, sqrt), rec.normal) &&
            (res.didScatter <==> inRay.direction.Dot(rec.normal) < 0.0)
  {
    var u := UnitVector(inRay.direction, sqrt);
    ReflectFacts(u, rec.normal);
    ScaledDotSign(u, inRay.direction.Length(sqrt), rec.normal);
  }

  /** Scaling a vector by a positive factor keeps the sign of its dot product with `n`. */
  lemma ScaledDotSign(u: Vec3, len: real, n: Vec3)
    requires 0.0 < len
    ensures u.Mul(len).Dot(n) < 0.0 <==> u.Dot(n) < 0.0
  {
    DotMul(u, len, n);
    var k := u.Dot(n);
    if k < 0.0 {
      MulPositive(len, -k, -u.Mul(len).Dot(n));
    }
    if u.Mul(len).Dot(n) < 0.0 {
      PositiveFactor(len, -k, -u.Mul(len).Dot(n));
    }
  }

  /** The two refraction ratios of a dielectric are reciprocal. */
  lemma RefractionRatiosReciprocal(ior: real)
    requires ior != 0.0
    ensures RefractionRatio(ior, true) * RefractionRatio(ior, false) == 1.0
  {
    DivMul(1.0, ior);
  }

  /** Total internal reflection: when ratio * sin(theta) > 1 the dielectric mirrors the ray, whatever the draw. */
  lemma DielectricTotalInternalReflection(ior: real, inRay: Ray, rec: HitRecord, d1: Draw, d2: Draw, sqrt: real -> real)
    requires IsSqrt(sqrt) && inRay.direction != Zero
    requires ior != 0.0 && ior != -1.0
    requires CannotRefract(RefractionRatio(ior, rec.frontFace),
                           CosTheta(UnitVector(inRay.direction, sqrt), rec.normal), sqrt)
    ensures DielectricScatter(ior, inRay, rec, d1, sqrt) == DielectricScatter(ior, inRay, rec, d2, sqrt)
    ensures DielectricScatter(ior, inRay, rec, d1, sqrt).scattered.direction ==
              Reflect(UnitVector(inRay.direction, sqrt), rec.normal)
  {
  }

  /**
    When refraction is possible (ratio * sin(theta) <= 1, with sin(theta) =
    sqrt(1 - c^2)), the squared length ratio^2 * (1 - c^2) of the refracted
    ray's perpendicular part is at most 1.
   */
  lemma RefractableSineSquared(ratio: real, c: real, sqrt: real -> real, s: real, p: real)
    requires 0.0 < ratio && s == sqrt(1.0 - c * c) && 0.0 <= s && s * s == 1.0 - c * c
    requires !CannotRefract(ratio, c, sqrt)
    requires p == ratio * ratio * (1.0 - c * c)
    ensures p <= 1.0
  {
    var x := ratio * s;
    assert x == ratio * sqrt(1.0 - c * c);
    assert x <= 1.0;
    assert p == x * x;
    MulNonNegative(ratio, s, x);
    MulNonNegative(x, 1.0 - x, x - x * x);
  }

  /** When refraction is possible, a unit vector refracts into a unit vector. */
  lemma RefractIsUnit(u: Vec3, n: Vec3, ratio: real, sqrt: real -> real)
    requires IsSqrt(sqrt)
    requires u.LengthSquared() == 1.0 && n.LengthSquared() == 1.0
    requires 0.0 < ratio && !CannotRefract(ratio, CosTheta(u, n), sqrt)
    ensures Refract(u, n, ratio, sqrt).LengthSquared() == 1.0
  {
    var c := CosTheta(u, n);
    CosThetaOfUnits(u, n);
    MulNonNegative(1.0 - c, 1.0 + c, 1.0 - c * c);
    RefractPerpFacts(u, n, ratio);
    var s := sqrt(1.0 - c * c);
    RefractableSineSquared(ratio, c, sqrt, s, RefractPerp(u, n, ratio).LengthSquared());
    RefractFacts(u, n, ratio, sqrt);
  }

  /** A positive index gives positive refraction ratios on both sides. */
  lemma RefractionRatioPositive(ior: real, frontFace: bool)
    requires 0.0 < ior
    ensures 0.0 < RefractionRatio(ior, frontFace)
  {
    if frontFace {
      DivMul(1.0, ior);
      PositiveFactor(ior, 1.0 / ior, 1.0);
    }
  }

  /**
    For a positive index and a unit normal, a dielectric always sends the ray
    off along a unit vector, whether it reflects or refracts.
   */
  lemma DielectricDirectionIsUnit(ior: real, inRay: Ray, rec: HitRecord, draw: Draw, sqrt: real -> real)
    requires IsSqrt(sqrt) && inRay.direction != Zero
    requires 0.0 < ior
    requires rec.normal.LengthSquared() == 1.0
    ensures DielectricScatter(ior, inRay, rec, draw, sqrt).scattered.direction.LengthSquared() == 1.0
  {
    var u := UnitVector(inRay.direction, sqrt);
    ReflectFacts(u, rec.normal);
    RefractionRatioPositive(ior, rec.frontFace);
    var ratio := RefractionRatio(ior, rec.frontFace);
    if !CannotRefract(ratio, CosTheta(u, rec.normal), sqrt) {
      RefractIsUnit(u, rec.normal, ratio, sqrt);
    }
  }

  /**
    Whenever a material scatters off a surface with a unit normal, the new
    ray has a non-zero direction, so it can be traced further.
   */
  lemma ScatterDirectionNonZero(m: Material, inRay: Ray, rec: HitRecord, draw: Draw, sqrt: real -> real)
    requires IsSqrt(sqrt) && inRay.direction != Zero && ValidMaterial(m)
    requires rec.normal.LengthSquared() == 1.0
    ensures Scatter(m, inRay, rec, draw, sqrt).didScatter ==>
              Scatter(m, inRay, rec, draw, sqrt).scattered.direction != Zero
  {
    LengthSquaredZeroIff(rec.normal);
    match m
    case Lambertian(albedo) =>
      NotNearZeroIsNonZero(rec.normal.Add(draw.unitVec));
    case Metal(albedo, fuzz) =>
    case Dielectric(ior) =>
      var u := UnitVector(inRay.direction, sqrt);
      ReflectFacts(u, rec.normal);
      LengthSquaredZeroIff(Reflect(u, rec.normal));
      RefractFacts(u, rec.normal, RefractionRatio(ior, rec.frontFace), sqrt);
  }
}
