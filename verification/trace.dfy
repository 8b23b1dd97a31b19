/**
  The recursive path tracer (rt/trace.go). `RayColor` follows a ray through
  the world: it returns black once the bounce budget is spent or when a
  surface absorbs the ray, multiplies by the material's attenuation at each
  scatter, and otherwise returns the sky gradient. The random numbers of the
  whole path arrive as a sequence of draws, one per bounce.
 */
module Trace {
  import opened RealMath
  import opened Vectors
  import opened Rays
  import opened Hittables
  import opened Spheres
  import opened HittableLists
  import opened Materials

  /** math.MaxFloat64, the largest finite float64: (2 - 2^-52) * 2^1023. */
  const MaxFloat64: real := 179769313486231570814527423731704356798070567525844996598917476803157260780028538760589558632766878171540458953514382464234321326889464182768467546703537516986049910576551282076245490090389328944075868508455133942304583236903222948165808559332123348274797826204144723168738177180919299881250404026184124858368.0

  /** The lower end of the hit window: a scattered ray does not re-hit the surface it leaves ("shadow acne"). */
  const ShadowAcneEpsilon: real := 0.001

  const Black: Color := NewColor(0.0, 0.0, 0.0)

  /** A world the tracer can query: every sphere has a non-zero radius and a material whose scatter is defined. */
  predicate ValidWorld(world: seq<Sphere>) {
    NonZeroRadii(world) && forall k :: 0 <= k < |world| ==> ValidMaterial(world[k].material)
  }

  /** The sky gradient: white looking straight down, light blue (0.5, 0.7, 1) looking straight up. */
  function SkyColor(direction: Vec3, sqrt: real -> real): (c: Color)
    requires IsSqrt(sqrt) && direction != Zero
    ensures 0.5 <= c.R() <= 1.0 && 0.7 <= c.G() <= 1.0 && c.B() == 1.0
  {
    var unitDirection := UnitVector(direction, sqrt);
    UnitComponentsBounded(unitDirection);
    var t := 0.5 * (unitDirection.y + 1.0);
    Color(NewColor(1.0, 1.0, 1.0).vec.Mul(1.0 - t).Add(NewColor(0.5, 0.7, 1.0).vec.Mul(t)))
  }

  /** The record of a hit in a valid world carries a valid material of the world and a unit normal. */
  lemma WorldHitRecord(world: seq<Sphere>, r: Ray, sqrt: real -> real)
    requires IsSqrt(sqrt) && r.direction != Zero && ValidWorld(world)
    ensures var hit := ListHitSpec(world, r, ShadowAcneEpsilon, MaxFloat64, sqrt);
            hit.ok ==> hit.rec.normal.LengthSquared() == 1.0 &&
                       exists k :: 0 <= k < |world| && hit.rec.material == Some(world[k].material) &&
                                   ValidMaterial(world[k].material)
  {
    ListHitRecord(world, r, ShadowAcneEpsilon, MaxFloat64, sqrt);
  }

  /**
    RayColor. `draws[0]` feeds the scatter at this bounce and `draws[1..]` the
    rest of the path; a path of `depth` bounces needs at most `depth` draws.
   */
  function RayColor(r: Ray, world: seq<Sphere>, depth: int, draws: seq<Draw>, sqrt: real -> real): Color
    requires IsSqrt(sqrt) && r.direction != Zero && ValidWorld(world)
    requires depth <= |draws|
    decreases depth
  {
    if depth <= 0 then
      Black
    else
      var hit := ListHitSpec(world, r, ShadowAcneEpsilon, MaxFloat64, sqrt);
      if hit.ok then
        WorldHitRecord(world, r, sqrt);
        var m := hit.rec.material.value;
        ScatterDirectionNonZero(m, r, hit.rec, draws[0], sqrt);
        var s := Scatter(m, r, hit.rec, draws[0], sqrt);
        if s.didScatter then
          Color(s.attenuation.vec.MulVec(RayColor(s.scattered, world, depth - 1, draws[1..], sqrt).vec))
        else
          Black
      else
        SkyColor(r.direction, sqrt)
  }

  // ---------------------------------------------------------------------
  // What RayColor returns

  /** A colour whose three channels lie in [0, 1]. */
  predicate InUnitCube(c: Color) {
    0.0 <= c.R() <= 1.0 && 0.0 <= c.G() <= 1.0 && 0.0 <= c.B() <= 1.0
  }

  /** Every Lambertian and metal albedo of the world lies in [0, 1]. */
  predicate AlbedosInUnitCube(world: seq<Sphere>) {
    forall k :: 0 <= k < |world| && !world[k].material.Dielectric? ==> InUnitCube(world[k].material.albedo)
  }

  /** Attenuating a colour in [0, 1] by one in [0, 1] stays in [0, 1]. */
  lemma AttenuateInUnitCube(a: Color, c: Color)
    requires InUnitCube(a) && InUnitCube(c)
    ensures InUnitCube(Color(a.vec.MulVec(c.vec)))
  {
    MulUnitInterval(a.R(), c.R(), a.R() * c.R());
    MulUnitInterval(a.G(), c.G(), a.G() * c.G());
    MulUnitInterval(a.B(), c.B(), a.B() * c.B());
  }

  /** Once the bounce budget is spent the path contributes no light. */
  lemma RayColorExhausted(r: Ray, world: seq<Sphere>, depth: int, draws: seq<Draw>, sqrt: real -> real)
    requires IsSqrt(sqrt) && r.direction != Zero && ValidWorld(world)
    requires depth <= |draws| && depth <= 0
    ensures RayColor(r, world, depth, draws, sqrt) == Black
  {
  }

  /**
    A hit either scatters, and the colour is the attenuation times the colour
    of the scattered ray one bounce shallower, or is absorbed into black; the
    world is always queried on [0.001, MaxFloat64].
   */
  lemma RayColorHit(r: Ray, world: seq<Sphere>, depth: int, draws: seq<Draw>, sqrt: real -> real)
    requires IsSqrt(sqrt) && r.direction != Zero && ValidWorld(world)
    requires 0 < depth <= |draws|
    requires ListHitSpec(world, r, ShadowAcneEpsilon, MaxFloat64, sqrt).ok
    ensures var rec := ListHitSpec(world, r, ShadowAcneEpsilon, MaxFloat64, sqrt).rec;
            rec.material.Some? && ValidMaterial(rec.material.value) && rec.normal.LengthSquared() == 1.0 &&
            var s := Scatter(rec.material.value, r, rec, draws[0], sqrt);
            (s.didScatter ==>
               s.scattered.direction != Zero &&
               RayColor(r, world, depth, draws, sqrt) ==
                 Color(s.attenuation.vec.MulVec(RayColor(s.scattered, world, depth - 1, draws[1..], sqrt).vec))) &&
            (!s.didScatter ==> RayColor(r, world, depth, draws, sqrt) == Black)
  {
    var rec := ListHitSpec(world, r, ShadowAcneEpsilon, MaxFloat64, sqrt).rec;
    WorldHitRecord(world, r, sqrt);
    ScatterDirectionNonZero(rec.material.value, r, rec, draws[0], sqrt);
  }

  /** A ray with budget left that hits nothing on [0.001, MaxFloat64] sees the sky gradient. */
  lemma RayColorMiss(r: Ray, world: seq<Sphere>, depth: int, draws: seq<Draw>, sqrt: real -> real)
    requires IsSqrt(sqrt) && r.direction != Zero && ValidWorld(world)
    requires 0 < depth <= |draws|
    requires !ListHitSpec(world, r, ShadowAcneEpsilon, MaxFloat64, sqrt).ok
    ensures RayColor(r, world, depth, draws, sqrt) == SkyColor(r.direction, sqrt)
  {
  }

  /** In an empty world every ray with budget left sees the sky. */
  lemma RayColorEmptyWorld(r: Ray, depth: int, draws: seq<Draw>, sqrt: real -> real)
    requires IsSqrt(sqrt) && r.direction != Zero
    requires 0 < depth <= |draws|
    ensures RayColor(r, [], depth, draws, sqrt) == SkyColor(r.direction, sqrt)
  {
    ListHitEmpty(r, ShadowAcneEpsilon, MaxFloat64, sqrt);
    RayColorMiss(r, [], depth, draws, sqrt);
  }

  /** Looking straight up the sky is light blue, looking straight down it is white. */
  lemma SkyColorVertical(c: real, sqrt: real -> real)
    requires IsSqrt(sqrt) && c != 0.0
    ensures SkyColor(Vec3(0.0, c, 0.0), sqrt) ==
              if 0.0 < c then NewColor(0.5, 0.7, 1.0) else NewColor(1.0, 1.0, 1.0)
  {
    VerticalUnit(c, sqrt);
  }

  /** The unit vector of (0, c, 0) is (0, 1, 0) or (0, -1, 0), following the sign of c. */
  lemma VerticalUnit(c: real, sqrt: real -> real)
    requires IsSqrt(sqrt) && c != 0.0
    ensures UnitVector(Vec3(0.0, c, 0.0), sqrt).y == if 0.0 < c then 1.0 else -1.0
  {
    var v := Vec3(0.0, c, 0.0);
    var len := if 0.0 < c then c else -c;
    assert v.LengthSquared() == len * len;
    SqrtUnique(sqrt, v.LengthSquared(), len);
    var uy := UnitVector(v, sqrt).y;
    assert uy * len == c;
    if 0.0 < c {
      if uy != 1.0 {
        MulNonZero(uy - 1.0, c, uy * c - c);
      }
    } else {
      if uy != -1.0 {
        MulNonZero(uy + 1.0, c, uy * c + c);
      }
    }
  }

  /**
    Energy never grows along a path: when every albedo lies in [0, 1], so does
    the colour, because each bounce multiplies by an attenuation in [0, 1]
    and the sky lies in [0, 1].
   */
  lemma {:induction false} RayColorInUnitCube(r: Ray, world: seq<Sphere>, depth: int, draws: seq<Draw>, sqrt: real -> real)
    requires IsSqrt(sqrt) && r.direction != Zero && ValidWorld(world)
    requires depth <= |draws|
    requires AlbedosInUnitCube(world)
    ensures InUnitCube(RayColor(r, world, depth, draws, sqrt))
    decreases depth
  {
    if depth > 0 {
      var hit := ListHitSpec(world, r, ShadowAcneEpsilon, MaxFloat64, sqrt);
      if hit.ok {
        WorldHitRecord(world, r, sqrt);
        var k :| 0 <= k < |world| && hit.rec.material == Some(world[k].material);
        var m := world[k].material;
        ScatterDirectionNonZero(m, r, hit.rec, draws[0], sqrt);
        var s := Scatter(m, r, hit.rec, draws[0], sqrt);
        if s.didScatter {
          RayColorInUnitCube(s.scattered, world, depth - 1, draws[1..], sqrt);
          AttenuateInUnitCube(s.attenuation, RayColor(s.scattered, world, depth - 1, draws[1..], sqrt));
        }
      }
    }
  }

  /** A path of `depth` bounces depends on the first `depth` draws only. */
  lemma {:induction false} RayColorUsesDepthDraws(r: Ray, world: seq<Sphere>, depth: int, d1: seq<Draw>, d2: seq<Draw>, sqrt: real -> real)
    requires IsSqrt(sqrt) && r.direction != Zero && ValidWorld(world)
    requires depth <= |d1| && depth <= |d2|
    requires forall i :: 0 <= i < depth ==> d1[i] == d2[i]
    ensures RayColor(r, world, depth, d1, sqrt) == RayColor(r, world, depth, d2, sqrt)
    decreases depth
  {
    if depth > 0 {
      var hit := ListHitSpec(world, r, ShadowAcneEpsilon, MaxFloat64, sqrt);
      if hit.ok {
        WorldHitRecord(world, r, sqrt);
        var m := hit.rec.material.value;
        ScatterDirectionNonZero(m, r, hit.rec, d1[0], sqrt);
        var s := Scatter(m, r, hit.rec, d1[0], sqrt);
        if s.didScatter {
          RayColorUsesDepthDraws(s.scattered, world, depth - 1, d1[1..], d2[1..], sqrt);
        }
      }
    }
  }
}
