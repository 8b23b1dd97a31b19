/**
  The thin-lens camera (rt/camera.go). `NewCamera` builds an orthonormal
  frame (u, v, w) from the view direction and the fixed up vector, lays a
  viewport of the field of view's height at the focus distance, and keeps
  half the aperture as the lens radius. `GetRay` starts a ray at a random
  point of the lens and aims it at the point (s, t) of the viewport.
  Go's math.Tan and math.Pi arrive as parameters; the random point of the
  lens is a parameter of `GetRay`, produced by `RandomInUnitDisk`.
 */
module Cameras {
  import opened RealMath
  import opened Vectors
  import opened Rays

  /** The image's width over its height, 16:9. */
  const AspectRatio: real := 16.0 / 9.0

  /** The fixed "view up" vector of every camera. */
  const Vup: Vec3 := Vec3(0.0, 1.0, 0.0)

  datatype Camera = Camera(
    origin: Point3,
    horizontal: Vec3,
    vertical: Vec3,
    lowerLeftCorner: Vec3,
    lensRadius: real,
    u: Vec3,
    v: Vec3)

  function DegreesToRadians(deg: real, pi: real): real {
    deg * pi / 180.0
  }

  /**
    A view the camera can be built for: looking from `lookFrom` to `lookAt`
    along a line that is not vertical (otherwise u = vup x w is the zero
    vector and cannot be normalised).
   */
  predicate ValidView(lookFrom: Point3, lookAt: Point3) {
    Vup.Cross(lookFrom.vec.Sub(lookAt.vec)) != Zero
  }

  /** A valid view has distinct eye and target. */
  lemma ViewNonZero(d: Vec3)
    requires Vup.Cross(d) != Zero
    ensures d != Zero
  {
    CrossZero(Vup);
  }

  /** Normalising the view direction keeps it off the vertical. */
  lemma UpCrossUnitNonZero(d: Vec3, sqrt: real -> real)
    requires IsSqrt(sqrt) && d != Zero && Vup.Cross(d) != Zero
    ensures Vup.Cross(UnitVector(d, sqrt)) != Zero
  {
    var w := UnitVector(d, sqrt);
    CrossMul(Vup, w, d.Length(sqrt));
  }

  /** w: the unit vector pointing from the scene back to the eye. */
  function Backward(lookFrom: Point3, lookAt: Point3, sqrt: real -> real): (w: Vec3)
    requires IsSqrt(sqrt) && ValidView(lookFrom, lookAt)
    ensures w.LengthSquared() == 1.0 && Vup.Cross(w) != Zero
  {
    var d := lookFrom.vec.Sub(lookAt.vec);
    ViewNonZero(d);
    UpCrossUnitNonZero(d, sqrt);
    UnitVector(d, sqrt)
  }

  function NewCamera(lookFrom: Point3, lookAt: Point3, vertFovDeg: real, aperture: real, focusDist: real,
                     pi: real, tan: real -> real, sqrt: real -> real): (cam: Camera)
    requires IsSqrt(sqrt) && ValidView(lookFrom, lookAt)
    ensures cam.origin == lookFrom && 2.0 * cam.lensRadius == aperture
    ensures cam.lowerLeftCorner.Add(cam.horizontal.Div(2.0)).Add(cam.vertical.Div(2.0)) ==
              lookFrom.vec.Sub(Backward(lookFrom, lookAt, sqrt).Mul(focusDist))
  {
    var theta := DegreesToRadians(vertFovDeg, pi);
    var h := tan(theta / 2.0);
    var viewportHeight := 2.0 * h;
    var viewportWidth := AspectRatio * viewportHeight;
    var w := Backward(lookFrom, lookAt, sqrt);
    var u := UnitVector(Vup.Cross(w), sqrt);
    var v := w.Cross(u);
    var horizontal := u.Mul(viewportWidth * focusDist);
    var vertical := v.Mul(viewportHeight * focusDist);
    var lowerLeftCorner := lookFrom.vec.Sub(horizontal.Div(2.0)).Sub(vertical.Div(2.0)).Sub(w.Mul(focusDist));
    Camera(lookFrom, horizontal, vertical, lowerLeftCorner, aperture / 2.0, u, v)
  }

  /**
    GetRay. `disk` is the point drawn by `RandomInUnitDisk`; scaled by the
    lens radius it gives the lens offset along u and v.
   */
  function GetRay(cam: Camera, s: real, t: real, disk: Vec3): (r: Ray)
    ensures r.origin.vec.Add(r.direction) ==
              cam.lowerLeftCorner.Add(cam.horizontal.Mul(s)).Add(cam.vertical.Mul(t))
  {
    var rd := disk.Mul(cam.lensRadius);
    var offset := LensOffset(cam, rd);
    Ray(Point3(cam.origin.vec.Add(offset)),
        cam.lowerLeftCorner.Add(cam.horizontal.Mul(s)).Add(cam.vertical.Mul(t)).Sub(cam.origin.vec).Sub(offset))
  }

  /** The point of the lens, relative to its centre, for the scaled disk sample `rd`. */
  function LensOffset(cam: Camera, rd: Vec3): Vec3 {
    cam.u.Mul(rd.x).Add(cam.v.Mul(rd.y))
  }

  /** One candidate of the rejection loop: two draws in [0, 1) mapped onto [-1, 1), in the plane z = 0. */
  function DiskCandidate(draw: (real, real)): (p: Vec3)
    requires 0.0 <= draw.0 < 1.0 && 0.0 <= draw.1 < 1.0
    ensures -1.0 <= p.x < 1.0 && -1.0 <= p.y < 1.0 && p.z == 0.0
  {
    Vec3(RandFloatRange(-1.0, 1.0, draw.0), RandFloatRange(-1.0, 1.0, draw.1), 0.0)
  }

  predicate ValidDiskDraws(draws: seq<(real, real)>) {
    forall k :: 0 <= k < |draws| ==> 0.0 <= draws[k].0 < 1.0 && 0.0 <= draws[k].1 < 1.0
  }

  /**
    randomInUnitDisk: the rejection loop over a finite prefix of the
    generator's draws. It returns the first candidate strictly inside the
    unit disk, or `found == false` when the prefix holds none.
   */
  method RandomInUnitDisk(draws: seq<(real, real)>) returns (found: bool, p: Vec3)
    requires ValidDiskDraws(draws)
    ensures found ==> p.z == 0.0 && p.LengthSquared() < 1.0
    ensures found ==> exists k :: 0 <= k < |draws| && p == DiskCandidate(draws[k]) &&
                        forall j :: 0 <= j < k ==> DiskCandidate(draws[j]).LengthSquared() >= 1.0
    ensures !found ==> forall k :: 0 <= k < |draws| ==> DiskCandidate(draws[k]).LengthSquared() >= 1.0
  {
    var i := 0;
    while i < |draws|
      invariant 0 <= i <= |draws|
      invariant forall j :: 0 <= j < i ==> DiskCandidate(draws[j]).LengthSquared() >= 1.0
    {
      var candidate := DiskCandidate(draws[i]);
      if candidate.LengthSquared() < 1.0 {
        return true, candidate;
      }
      i := i + 1;
    }
    return false, Zero;
  }

  // ---------------------------------------------------------------------
  // The camera's frame and its rays

  /** u, v and w are unit vectors and pairwise orthogonal. */
  predicate Orthonormal(u: Vec3, v: Vec3, w: Vec3) {
    u.LengthSquared() == 1.0 && v.LengthSquared() == 1.0 && w.LengthSquared() == 1.0 &&
    u.Dot(v) == 0.0 && u.Dot(w) == 0.0 && v.Dot(w) == 0.0
  }

  /** u = unit(vup x w) and v = w x u complete w to an orthonormal frame. */
  lemma CameraFrame(lookFrom: Point3, lookAt: Point3, sqrt: real -> real)
    requires IsSqrt(sqrt) && ValidView(lookFrom, lookAt)
    ensures var w := Backward(lookFrom, lookAt, sqrt);
            var u := UnitVector(Vup.Cross(w), sqrt);
            Orthonormal(u, w.Cross(u), w)
  {
    var w := Backward(lookFrom, lookAt, sqrt);
    var c := Vup.Cross(w);
    var u := UnitVector(c, sqrt);
    var len := c.Length(sqrt);
    CrossOrthogonal(Vup, w);
    DotMul(u, len, w);
    var k := u.Dot(w);
    if k != 0.0 {
      MulNonZero(len, k, c.Dot(w));
    }
    var v := w.Cross(u);
    CrossOrthogonal(w, u);
    DotSymmetric(u, w);
    DotSymmetric(u, v);
    LagrangeIdentity(w, u);
  }

  /** The camera's u and v complete w to an orthonormal frame. */
  lemma NewCameraFrame(lookFrom: Point3, lookAt: Point3, vertFovDeg: real, aperture: real, focusDist: real,
                       pi: real, tan: real -> real, sqrt: real -> real)
    requires IsSqrt(sqrt) && ValidView(lookFrom, lookAt)
    ensures var cam := NewCamera(lookFrom, lookAt, vertFovDeg, aperture, focusDist, pi, tan, sqrt);
            Orthonormal(cam.u, cam.v, Backward(lookFrom, lookAt, sqrt))
  {
    CameraFrame(lookFrom, lookAt, sqrt);
  }

  /**
    The viewport is a rectangle facing the eye: its edges are orthogonal to
    each other and to w, and its width is the aspect ratio times its height.
   */
  lemma NewCameraViewport(lookFrom: Point3, lookAt: Point3, vertFovDeg: real, aperture: real, focusDist: real,
                          pi: real, tan: real -> real, sqrt: real -> real)
    requires IsSqrt(sqrt) && ValidView(lookFrom, lookAt)
    ensures var cam := NewCamera(lookFrom, lookAt, vertFovDeg, aperture, focusDist, pi, tan, sqrt);
            var w := Backward(lookFrom, lookAt, sqrt);
            cam.horizontal.Dot(cam.vertical) == 0.0 &&
            cam.horizontal.Dot(w) == 0.0 && cam.vertical.Dot(w) == 0.0 &&
            cam.horizontal.LengthSquared() == AspectRatio * AspectRatio * cam.vertical.LengthSquared()
  {
    var cam := NewCamera(lookFrom, lookAt, vertFovDeg, aperture, focusDist, pi, tan, sqrt);
    var w := Backward(lookFrom, lookAt, sqrt);
    NewCameraFrame(lookFrom, lookAt, vertFovDeg, aperture, focusDist, pi, tan, sqrt);
    var k := 2.0 * tan(DegreesToRadians(vertFovDeg, pi) / 2.0) * focusDist;
    var kw := AspectRatio * (2.0 * tan(DegreesToRadians(vertFovDeg, pi) / 2.0)) * focusDist;
    assert kw == AspectRatio * k;
    assert cam.horizontal == cam.u.Mul(kw) && cam.vertical == cam.v.Mul(k);
    DotMul(cam.u, kw, cam.vertical);
    DotMul(cam.v, k, cam.u);
    DotSymmetric(cam.u, cam.v);
    assert cam.horizontal.Dot(cam.vertical) == 0.0;
    DotMul(cam.u, kw, w);
    DotMul(cam.v, k, w);
    assert cam.horizontal.Dot(w) == 0.0;
    assert cam.vertical.Dot(w) == 0.0;
    UnitMulLengthSquared(cam.u, kw);
    UnitMulLengthSquared(cam.v, k);
    ScaledSquare(AspectRatio, k, kw);
  }

  /** A pinhole camera (aperture 0) starts every ray at its origin. */
  lemma GetRayPinhole(cam: Camera, s: real, t: real, disk: Vec3)
    requires cam.lensRadius == 0.0
    ensures GetRay(cam, s, t, disk).origin == cam.origin
  {
    assert disk.Mul(0.0) == Zero;
    assert LensOffset(cam, Zero) == Zero;
  }

  /** a u + b v has squared length a^2 + b^2 when u and v are orthonormal. */
  lemma OrthogonalSumLengthSquared(u: Vec3, v: Vec3, a: real, b: real)
    requires u.LengthSquared() == 1.0 && v.LengthSquared() == 1.0 && u.Dot(v) == 0.0
    ensures u.Mul(a).Add(v.Mul(b)).LengthSquared() == a * a + b * b
  {
    LengthSquaredAdd(u.Mul(a), v.Mul(b));
    UnitMulLengthSquared(u, a);
    UnitMulLengthSquared(v, b);
    DotMul(u, a, v.Mul(b));
    DotMul(v, b, u);
    DotSymmetric(u, v);
  }

  lemma ScaledSquare(c: real, k: real, kc: real)
    requires kc == c * k
    ensures kc * kc == c * c * (k * k)
  {
  }

  /** A point strictly inside the unit ball, scaled by l to (a, b, _), has a^2 + b^2 <= l^2. */
  lemma ScaledDiskBound(x: real, y: real, z: real, l: real, a: real, b: real)
    requires x * x + y * y + z * z < 1.0
    requires a == x * l && b == y * l
    ensures a * a + b * b <= l * l
  {
    assert a * a + b * b == l * l * (x * x + y * y);
    SquareNonNegative(z, z * z);
    MulNonNegative(l * l, 1.0 - (x * x + y * y), l * l * (1.0 - (x * x + y * y)));
  }

  /** With u and v orthonormal, the lens offset of a disk sample lies within the lens radius. */
  lemma LensOffsetBound(cam: Camera, disk: Vec3)
    requires cam.u.LengthSquared() == 1.0 && cam.v.LengthSquared() == 1.0 && cam.u.Dot(cam.v) == 0.0
    requires disk.LengthSquared() < 1.0
    ensures LensOffset(cam, disk.Mul(cam.lensRadius)).LengthSquared() <= cam.lensRadius * cam.lensRadius
  {
    var lr := cam.lensRadius;
    var a, b := disk.x * lr, disk.y * lr;
    assert LensOffset(cam, disk.Mul(lr)) == cam.u.Mul(a).Add(cam.v.Mul(b));
    OrthogonalSumLengthSquared(cam.u, cam.v, a, b);
    ScaledDiskBound(disk.x, disk.y, disk.z, lr, a, b);
  }

  /**
    With an orthonormal u and v and a disk sample strictly inside the unit
    disk, every ray starts on the lens: within the lens radius of the origin.
   */
  lemma GetRayFromLens(cam: Camera, s: real, t: real, disk: Vec3)
    requires cam.u.LengthSquared() == 1.0 && cam.v.LengthSquared() == 1.0 && cam.u.Dot(cam.v) == 0.0
    requires disk.LengthSquared() < 1.0
    ensures GetRay(cam, s, t, disk).origin.vec.Sub(cam.origin.vec).LengthSquared() <= cam.lensRadius * cam.lensRadius
  {
    var offset := LensOffset(cam, disk.Mul(cam.lensRadius));
    assert GetRay(cam, s, t, disk).origin.vec.Sub(cam.origin.vec) == offset;
    LensOffsetBound(cam, disk);
  }

  /**
    Every camera ray heads into the scene: its direction has component
    -focusDist along w, whatever the viewport coordinates and lens sample. So
    a non-zero focus distance gives a non-zero direction.
   */
  lemma GetRayForward(lookFrom: Point3, lookAt: Point3, vertFovDeg: real, aperture: real, focusDist: real,
                      pi: real, tan: real -> real, sqrt: real -> real, s: real, t: real, disk: Vec3)
    requires IsSqrt(sqrt) && ValidView(lookFrom, lookAt)
    ensures var cam := NewCamera(lookFrom, lookAt, vertFovDeg, aperture, focusDist, pi, tan, sqrt);
            var r := GetRay(cam, s, t, disk);
            r.direction.Dot(Backward(lookFrom, lookAt, sqrt)) == -focusDist &&
            (focusDist != 0.0 ==> r.direction != Zero)
  {
    var cam := NewCamera(lookFrom, lookAt, vertFovDeg, aperture, focusDist, pi, tan, sqrt);
    var w := Backward(lookFrom, lookAt, sqrt);
    NewCameraFrame(lookFrom, lookAt, vertFovDeg, aperture, focusDist, pi, tan, sqrt);
    NewCameraViewport(lookFrom, lookAt, vertFovDeg, aperture, focusDist, pi, tan, sqrt);
    var rd := disk.Mul(cam.lensRadius);
    var offset := LensOffset(cam, rd);
    OffsetOrthogonal(cam.u, cam.v, w, rd.x, rd.y);
    ForwardComponent(cam.lowerLeftCorner, cam.horizontal, cam.vertical, cam.origin.vec, offset, w, s, t, focusDist);
  }

  lemma OffsetOrthogonal(u: Vec3, v: Vec3, w: Vec3, a: real, b: real)
    requires u.Dot(w) == 0.0 && v.Dot(w) == 0.0
    ensures u.Mul(a).Add(v.Mul(b)).Dot(w) == 0.0
  {
    DotAdd(u.Mul(a), v.Mul(b), w);
    DotMul(u, a, w);
    DotMul(v, b, w);
  }

  /** The w-component of llc + s H + t V - origin - offset, given how llc is placed. */
  lemma ForwardComponent(llc: Vec3, h: Vec3, v: Vec3, o: Vec3, offset: Vec3, w: Vec3, s: real, t: real, fd: real)
    requires h.Dot(w) == 0.0 && v.Dot(w) == 0.0 && offset.Dot(w) == 0.0 && w.LengthSquared() == 1.0
    requires llc == o.Sub(h.Div(2.0)).Sub(v.Div(2.0)).Sub(w.Mul(fd))
    ensures llc.Add(h.Mul(s)).Add(v.Mul(t)).Sub(o).Sub(offset).Dot(w) == -fd
  {
    assert h.Div(2.0) == h.Mul(0.5) && v.Div(2.0) == v.Mul(0.5);
    DotMul(h, 0.5, w);
    DotMul(v, 0.5, w);
    DotMul(w, fd, w);
    DotMul(h, s, w);
    DotMul(v, t, w);
    DotAdd(o, h.Mul(0.5), w);
    DotAdd(o.Sub(h.Mul(0.5)), v.Mul(0.5), w);
    DotAdd(o.Sub(h.Mul(0.5)).Sub(v.Mul(0.5)), w.Mul(fd), w);
    DotAdd(llc, h.Mul(s), w);
    DotAdd(llc.Add(h.Mul(s)), v.Mul(t), w);
    DotAdd(llc.Add(h.Mul(s)).Add(v.Mul(t)), o, w);
    DotAdd(llc.Add(h.Mul(s)).Add(v.Mul(t)).Sub(o), offset, w);
  }
}
