/**
  Vectors, points and colours (rt/vec.go). Go's `Vec3` is a `[3]float64`
  with value receivers: every operation copies the array and returns the
  copy, so here it is an immutable datatype whose member functions return
  new values. `Point3` and `Color` wrap a `Vec3`, as the Go structs that
  embed it do, so that a point cannot be added to a colour by accident.
 */
module Vectors {
  import opened RealMath

  datatype Vec3 = Vec3(x: real, y: real, z: real) {

    function Neg(): Vec3 {
      Vec3(-x, -y, -z)
    }

    function Add(o: Vec3): Vec3 {
      Vec3(x + o.x, y + o.y, z + o.z)
    }

    function Sub(o: Vec3): Vec3 {
      Vec3(x - o.x, y - o.y, z - o.z)
    }

    function Mul(c: real): Vec3 {
      Vec3(x * c, y * c, z * c)
    }

    /** Division by zero gives infinities or NaN in Go; the model excludes it. */
    function Div(c: real): Vec3
      requires c != 0.0
    {
      Vec3(x / c, y / c, z / c)
    }

    function MulVec(o: Vec3): Vec3 {
      Vec3(x * o.x, y * o.y, z * o.z)
    }

    function Dot(o: Vec3): real {
      x * o.x + y * o.y + z * o.z
    }

    function Cross(o: Vec3): Vec3 {
      Vec3(y * o.z - z * o.y,
           z * o.x - x * o.z,
           x * o.y - y * o.x)
    }

    function LengthSquared(): real {
      Dot(this)
    }

    function Length(sqrt: real -> real): real {
      sqrt(LengthSquared())
    }

    predicate NearZero() {
      Abs(x) < NearZeroEpsilon && Abs(y) < NearZeroEpsilon && Abs(z) < NearZeroEpsilon
    }
  }

  /** The tolerance of `NearZero` (1e-8). */
  const NearZeroEpsilon: real := 0.00000001

  const Zero: Vec3 := Vec3(0.0, 0.0, 0.0)

  const Ones: Vec3 := Vec3(1.0, 1.0, 1.0)

  /** A world-space position. */
  datatype Point3 = Point3(vec: Vec3)

  /** Linear-light radiance or attenuation, one component per channel. */
  datatype Color = Color(vec: Vec3) {
    function R(): real { vec.x }
    function G(): real { vec.y }
    function B(): real { vec.z }
  }

  function NewPoint3(x: real, y: real, z: real): Point3 {
    Point3(Vec3(x, y, z))
  }

  function NewColor(r: real, g: real, b: real): Color {
    Color(Vec3(r, g, b))
  }

  /** UnitVector: the vector divided by its length. Not defined for the zero vector. */
  function UnitVector(v: Vec3, sqrt: real -> real): (u: Vec3)
    requires IsSqrt(sqrt)
    requires v != Zero
    ensures u.LengthSquared() == 1.0
    ensures 0.0 < v.Length(sqrt) && u.Mul(v.Length(sqrt)) == v
  {
    LengthSquaredZeroIff(v);
    SqrtPositive(sqrt, v.LengthSquared());
    var len := v.Length(sqrt);
    var u := v.Div(len);
    UnitLength(v, len);
    u
  }

  /** Dividing a vector by a (possibly negative) square root of its squared length gives squared length 1. */
  lemma UnitLength(v: Vec3, len: real)
    requires len != 0.0 && len * len == v.LengthSquared()
    ensures v.Div(len).LengthSquared() == 1.0
    ensures v.Div(len).Mul(len) == v
  {
    var u := v.Div(len);
    assert u.x * len == v.x && u.y * len == v.y && u.z * len == v.z;
    SquareNonZero(len, len * len);
    calc {
      u.LengthSquared() * (len * len);
      (u.x * len) * (u.x * len) + (u.y * len) * (u.y * len) + (u.z * len) * (u.z * len);
      v.LengthSquared();
      1.0 * (len * len);
    }
  }

  /** RandFloatRange: the affine map of a uniform draw in [0, 1) onto [min, max). */
  function RandFloatRange(min: real, max: real, draw: real): (r: real)
    requires min < max && 0.0 <= draw < 1.0
    ensures min <= r < max
  {
    MulUnit(max - min, draw, (max - min) * draw);
    min + (max - min) * draw
  }

  /** RandVec3: three independent draws, one per component. */
  function RandVec3(min: real, max: real, draws: Vec3): (v: Vec3)
    requires min < max && IsUniformDraw(draws)
    ensures min <= v.x < max && min <= v.y < max && min <= v.z < max
  {
    Vec3(RandFloatRange(min, max, draws.x),
         RandFloatRange(min, max, draws.y),
         RandFloatRange(min, max, draws.z))
  }

  predicate IsUniformDraw(d: Vec3) {
    0.0 <= d.x < 1.0 && 0.0 <= d.y < 1.0 && 0.0 <= d.z < 1.0
  }

  /**
    RandVec3InUnitSphere: the rejection loop, run over a finite prefix of the
    generator's draws. It returns the first candidate strictly inside the unit
    sphere, or `found == false` when the prefix holds none (where Go would keep
    drawing).
   */
  method RandVec3InUnitSphere(draws: seq<Vec3>) returns (found: bool, v: Vec3)
    requires forall k :: 0 <= k < |draws| ==> IsUniformDraw(draws[k])
    ensures found ==> v.LengthSquared() < 1.0
    ensures found ==> -1.0 <= v.x < 1.0 && -1.0 <= v.y < 1.0 && -1.0 <= v.z < 1.0
    ensures found ==> exists k :: 0 <= k < |draws| && v == RandVec3(-1.0, 1.0, draws[k]) &&
                        forall j :: 0 <= j < k ==> RandVec3(-1.0, 1.0, draws[j]).LengthSquared() >= 1.0
    ensures !found ==> forall k :: 0 <= k < |draws| ==> RandVec3(-1.0, 1.0, draws[k]).LengthSquared() >= 1.0
  {
    var i := 0;
    while i < |draws|
      invariant 0 <= i <= |draws|
      invariant forall j :: 0 <= j < i ==> RandVec3(-1.0, 1.0, draws[j]).LengthSquared() >= 1.0
    {
      var candidate := RandVec3(-1.0, 1.0, draws[i]);
      if candidate.LengthSquared() < 1.0 {
        return true, candidate;
      }
      i := i + 1;
    }
    return false, Zero;
  }

  // ---------------------------------------------------------------------
  // Algebra of the vector operations

  lemma SubAddCancel(v: Vec3, o: Vec3)
    ensures v.Sub(o).Add(o) == v
  {
  }

  lemma AddCommutes(v: Vec3, o: Vec3)
    ensures v.Add(o) == o.Add(v)
  {
  }

  lemma NegInvolution(v: Vec3)
    ensures v.Neg().Neg() == v
    ensures v.Add(v.Neg()) == Zero
  {
  }

  lemma DotSymmetric(v: Vec3, o: Vec3)
    ensures v.Dot(o) == o.Dot(v)
  {
  }

  /** The squared length is never negative and vanishes only for the zero vector. */
  lemma LengthSquaredZeroIff(v: Vec3)
    ensures !(v.LengthSquared() < 0.0)
    ensures v == Zero <==> v.LengthSquared() == 0.0
  {
    var x, y, z := v.x * v.x, v.y * v.y, v.z * v.z;
    SquareNonNegative(v.x, x);
    SquareNonNegative(v.y, y);
    SquareNonNegative(v.z, z);
    SquareNonZero(v.x, x);
    SquareNonZero(v.y, y);
    SquareNonZero(v.z, z);
    assert v.LengthSquared() == x + y + z;
  }

  /** The cross product is orthogonal to both of its operands. */
  lemma CrossOrthogonal(v: Vec3, o: Vec3)
    ensures v.Dot(v.Cross(o)) == 0.0
    ensures o.Dot(v.Cross(o)) == 0.0
  {
  }

  lemma CrossAntiCommutes(v: Vec3, o: Vec3)
    ensures v.Cross(o) == o.Cross(v).Neg()
  {
  }

  /** Lagrange's identity. */
  lemma LagrangeIdentity(v: Vec3, o: Vec3)
    ensures v.LengthSquared() * o.LengthSquared() - v.Dot(o) * v.Dot(o) == v.Cross(o).LengthSquared()
  {
  }

  /** Cauchy-Schwarz, as a consequence of Lagrange's identity. */
  lemma CauchySchwarz(v: Vec3, o: Vec3)
    ensures v.Dot(o) * v.Dot(o) <= v.LengthSquared() * o.LengthSquared()
  {
    LagrangeIdentity(v, o);
    LengthSquaredZeroIff(v.Cross(o));
  }

  /** For unit vectors the dot product lies in [-1, 1]. */
  lemma UnitDotBounded(v: Vec3, o: Vec3)
    requires v.LengthSquared() == 1.0 && o.LengthSquared() == 1.0
    ensures -1.0 <= v.Dot(o) <= 1.0
  {
    CauchySchwarz(v, o);
    SquareAtMostOne(v.Dot(o));
  }

  /** Every component of a unit vector lies in [-1, 1]. */
  lemma UnitComponentsBounded(v: Vec3)
    requires v.LengthSquared() == 1.0
    ensures -1.0 <= v.x <= 1.0 && -1.0 <= v.y <= 1.0 && -1.0 <= v.z <= 1.0
  {
    var x, y, z := v.x * v.x, v.y * v.y, v.z * v.z;
    SquareNonNegative(v.x, x);
    SquareNonNegative(v.y, y);
    SquareNonNegative(v.z, z);
    assert x + y + z == 1.0;
    SquareAtMostOne(v.x);
    SquareAtMostOne(v.y);
    SquareAtMostOne(v.z);
  }

  /** The cross product is linear in its second operand's scale. */
  lemma CrossMul(a: Vec3, b: Vec3, c: real)
    ensures a.Cross(b.Mul(c)) == a.Cross(b).Mul(c)
  {
    assert a.y * (b.z * c) - a.z * (b.y * c) == (a.y * b.z - a.z * b.y) * c;
    assert a.z * (b.x * c) - a.x * (b.z * c) == (a.z * b.x - a.x * b.z) * c;
    assert a.x * (b.y * c) - a.y * (b.x * c) == (a.x * b.y - a.y * b.x) * c;
  }

  /** Crossing with the zero vector gives the zero vector. */
  lemma CrossZero(a: Vec3)
    ensures a.Cross(Zero) == Zero
  {
  }

  lemma MulDivRoundTrip(v: Vec3, c: real)
    requires c != 0.0
    ensures v.Mul(c).Div(c) == v
  {
  }

  /** Componentwise product: commutative, with Ones as its unit. */
  lemma MulVecCommutesWithUnit(v: Vec3, o: Vec3)
    ensures v.MulVec(o) == o.MulVec(v)
    ensures v.MulVec(Ones) == v
  {
  }

  /** NearZero holds exactly when every component lies strictly within 1e-8 of zero. */
  lemma NearZeroIff(v: Vec3)
    ensures v.NearZero() <==> (-NearZeroEpsilon < v.x < NearZeroEpsilon &&
                               -NearZeroEpsilon < v.y < NearZeroEpsilon &&
                               -NearZeroEpsilon < v.z < NearZeroEpsilon)
  {
  }

  /** A vector that is not near zero is not the zero vector. */
  lemma NotNearZeroIsNonZero(v: Vec3)
    ensures !v.NearZero() ==> v != Zero
  {
  }

  // Linearity of the dot product, used by the geometric proofs.

  lemma DotAdd(a: Vec3, b: Vec3, o: Vec3)
    ensures a.Add(b).Dot(o) == a.Dot(o) + b.Dot(o)
    ensures a.Sub(b).Dot(o) == a.Dot(o) - b.Dot(o)
  {
  }

  lemma DotMul(a: Vec3, c: real, o: Vec3)
    ensures a.Mul(c).Dot(o) == c * a.Dot(o)
    ensures o.Dot(a.Mul(c)) == c * o.Dot(a)
  {
  }

  lemma LengthSquaredMul(a: Vec3, c: real)
    ensures a.Mul(c).LengthSquared() == c * c * a.LengthSquared()
  {
  }

  lemma UnitMulLengthSquared(a: Vec3, c: real)
    requires a.LengthSquared() == 1.0
    ensures a.Mul(c).LengthSquared() == c * c
  {
    LengthSquaredMul(a, c);
  }

  /** The squared length of a sum expands like a binomial. */
  lemma LengthSquaredAdd(a: Vec3, b: Vec3)
    ensures a.Add(b).LengthSquared() == a.LengthSquared() + 2.0 * a.Dot(b) + b.LengthSquared()
  {
  }

  lemma LengthSquaredSub(a: Vec3, b: Vec3)
    ensures a.Sub(b).LengthSquared() == a.LengthSquared() - 2.0 * a.Dot(b) + b.LengthSquared()
  {
  }

  lemma NegDot(a: Vec3, o: Vec3)
    ensures a.Neg().Dot(o) == -a.Dot(o)
    ensures o.Dot(a.Neg()) == -o.Dot(a)
    ensures a.Neg().LengthSquared() == a.LengthSquared()
  {
    assert (-a.x) * o.x + (-a.y) * o.y + (-a.z) * o.z == -(a.x * o.x + a.y * o.y + a.z * o.z);
    assert o.x * (-a.x) + o.y * (-a.y) + o.z * (-a.z) == -(o.x * a.x + o.y * a.y + o.z * a.z);
    assert (-a.x) * (-a.x) + (-a.y) * (-a.y) + (-a.z) * (-a.z) == a.x * a.x + a.y * a.y + a.z * a.z;
  }
}
