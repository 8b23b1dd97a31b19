# A verified model of the rtweekend-go path tracer

This project models the rendering kernel of a small Go path tracer, the one
from "Ray Tracing in One Weekend". It is written in Dafny and verified by
Dafny's verifier. The kernel renders a scene of spheres into an RGBA image:

- for each pixel, many jittered camera rays are traced;
- each ray is bounced off the nearest sphere according to that sphere's
  material (diffuse, metal or glass), up to a fixed depth;
- the colours are averaged, gamma-corrected and stored as bytes.

The modules follow the Go files, one module per file:

| module | Go file | form |
|---|---|---|
| `RealMath` (realmath.dfy) | `math.Sqrt`, `math.Min`, `math.Abs`, `math.Pow` | helpers |
| `Vectors` (vec.dfy) | rt/vec.go, rt/rand.go | datatype with member functions; one rejection loop |
| `Rays` (ray.dfy) | rt/ray.go | datatype |
| `Hittables` (hittable.dfy) | rt/hittable.go | datatypes, pure function |
| `Spheres` (sphere.dfy) | rt/sphere.go | pure functions |
| `HittableLists` (hittable_list.dfy) | rt/hittable_list.go | a method with a loop, proved against a recursive function |
| `Materials` (material.dfy) | rt/material.go | pure functions over a closed `Material` datatype |
| `Trace` (trace.dfy) | rt/trace.go | recursive function on `depth` |
| `Cameras` (camera.dfy) | rt/camera.go | pure functions; one rejection loop |
| `Render` (main.dfy) | main/main.go | pure pixel helpers; nested loops writing into an `array2` |

How Go is represented:

- `float64` is Dafny's exact `real`, so nothing is said about rounding.
- `math.Sqrt` is a parameter `sqrt` that must satisfy `IsSqrt`: on non-negative
  arguments, it returns a non-negative root whose square is the argument.
- `math.Tan` and `math.Pi` are parameters of `NewCamera`.
- Every random draw is an explicit input.
  - A scatter gets one `Draw`.
  - `RayColor` gets one `Draw` per bounce.
  - The renderer gets an oracle `draws(j, i, s)` giving the random numbers of
    sample `s` of pixel `(i, j)`.
  - The rejection loops (`RandVec3InUnitSphere`, `randomInUnitDisk`) run over
    a finite sequence of candidate draws.
- The `Material` and `Hittable` interfaces become closed datatypes. The list
  holds spheres.

The renderer is modelled as the code writes it: one sequential loop over rows
`j = imageHeight … 0` and columns `i = 0 … imageWidth - 1`.

The first pass of the loop (`j = imageHeight`) targets image row −1. That
write falls outside the image and `image.RGBA.Set` ignores it. The model keeps
this pass, and `WriteOrderTargets` states that −1 is the only row outside the
image that is ever written.

The lemma `Render.PixelTable` is only a proof aid. It hands the loops of
`RenderImage` a ghost table of every pixel's bytes, so that the proof unfolds a
pixel's value only where it is written. The Go code builds no such table.

## Model

| member | source | states |
|---|---|---|
| Vectors.UnitVector | rt/vec.go:142-144 | the result has squared length 1, and multiplying it by the (positive) length of `v` gives back `v` |
| Vectors.Vec3.Neg | rt/vec.go:62-67 | negates each component; NegInvolution and NegDot give its contract |
| Vectors.Vec3.Add | rt/vec.go:69-74 | componentwise sum; AddCommutes, SubAddCancel and DotAdd give its contract |
| Vectors.Vec3.Sub | rt/vec.go:76-81 | componentwise difference, the inverse of `Add` (SubAddCancel) |
| Vectors.Vec3.Mul | rt/vec.go:83-88 | scaling; MulDivRoundTrip, DotMul and LengthSquaredMul give its contract |
| Vectors.Vec3.Div | rt/vec.go:90-95 | division by a non-zero scalar, the inverse of `Mul` (MulDivRoundTrip) |
| Vectors.Vec3.MulVec | rt/vec.go:97-102 | componentwise product, commutative with unit (1, 1, 1) (MulVecCommutesWithUnit) |
| Vectors.Vec3.Dot | rt/vec.go:104-106 | symmetric, bilinear and bounded by Cauchy–Schwarz (DotSymmetric, DotAdd, DotMul, CauchySchwarz) |
| Vectors.Vec3.Cross | rt/vec.go:108-114 | orthogonal to both operands, anti-commutative, with Lagrange's identity (CrossOrthogonal, CrossAntiCommutes, LagrangeIdentity) |
| Vectors.Vec3.LengthSquared | rt/vec.go:120-122 | never negative and zero exactly for the zero vector (LengthSquaredZeroIff) |
| Vectors.Vec3.Length | rt/vec.go:116-118 | the root of `LengthSquared`; UnitVector shows `v = |v|·unit(v)` with `|v| > 0` for `v ≠ 0` |
| Vectors.Vec3.NearZero | rt/vec.go:124-128 | holds exactly when every component is strictly within 1e-8 of zero (NearZeroIff); a vector that is not near zero is non-zero (NotNearZeroIsNonZero) |
| Vectors.RandFloatRange | rt/rand.go:6-8 | a draw in [0, 1) is mapped into [min, max) |
| Vectors.RandVec3 | rt/vec.go:130-136 | every component lies in [min, max) |
| Vectors.RandVec3InUnitSphere | rt/vec.go:146-153 | the candidate returned lies strictly inside the unit sphere and in [-1, 1)³; it is the first candidate of the draws that does; when none is returned, every candidate was rejected |
| Vectors.SubAddCancel | rt/vec.go:69-81 | `v.Sub(o).Add(o) == v` |
| Vectors.AddCommutes | rt/vec.go:69-74 | `Add` is commutative |
| Vectors.NegInvolution | rt/vec.go:62-74 | `Neg` is an involution and `v + (-v)` is the zero vector |
| Vectors.DotSymmetric | rt/vec.go:104-106 | `Dot` is symmetric |
| Vectors.LengthSquaredZeroIff | rt/vec.go:120-122 | the squared length is never negative and is zero exactly for the zero vector |
| Vectors.CrossOrthogonal | rt/vec.go:108-114 | `v·(v×o) = 0` and `o·(v×o) = 0` |
| Vectors.CrossAntiCommutes | rt/vec.go:108-114 | `v×o = −(o×v)` |
| Vectors.LagrangeIdentity | rt/vec.go:104-122 | `|v|²|o|² − (v·o)² = |v×o|²` |
| Vectors.CauchySchwarz | rt/vec.go:104-122 | `(v·o)² ≤ |v|²|o|²` |
| Vectors.UnitDotBounded | rt/vec.go:104-106 | the dot product of two unit vectors lies in [-1, 1] |
| Vectors.UnitComponentsBounded | rt/vec.go:120-122 | every component of a unit vector lies in [-1, 1] |
| Vectors.CrossMul | rt/vec.go:83-114 | scaling the second operand scales the cross product |
| Vectors.CrossZero | rt/vec.go:108-114 | crossing with the zero vector gives the zero vector |
| Vectors.MulDivRoundTrip | rt/vec.go:83-95 | `v.Mul(c).Div(c) == v` for `c ≠ 0` |
| Vectors.MulVecCommutesWithUnit | rt/vec.go:97-102 | the componentwise product is commutative, with (1,1,1) as its unit |
| Vectors.NearZeroIff | rt/vec.go:124-128 | `NearZero` holds exactly when every component lies strictly within 1e-8 of zero |
| Vectors.NotNearZeroIsNonZero | rt/vec.go:124-128 | a vector that is not near zero is not the zero vector |
| Vectors.DotAdd | rt/vec.go:69-106 | the dot product is additive in its first operand |
| Vectors.DotMul | rt/vec.go:83-106 | the dot product is homogeneous in either operand |
| Vectors.LengthSquaredMul | rt/vec.go:83-122 | `|c v|² = c² |v|²` |
| Vectors.UnitMulLengthSquared | rt/vec.go:83-122 | a scaled unit vector has squared length `c²` |
| Vectors.LengthSquaredAdd | rt/vec.go:69-122 | `|a + b|² = |a|² + 2 a·b + |b|²` |
| Vectors.LengthSquaredSub | rt/vec.go:76-122 | `|a − b|² = |a|² − 2 a·b + |b|²` |
| Vectors.NegDot | rt/vec.go:62-106 | negation negates dot products and keeps the squared length |
| Rays.Ray.At | rt/ray.go:8-10 | `At(t) − origin = t · direction` |
| Rays.AtZero | rt/ray.go:8-10 | `At(0)` is the origin |
| Rays.AtDifference | rt/ray.go:8-10 | `At(s) − At(t) = (s − t) · direction` |
| Rays.AtShift | rt/ray.go:8-10 | `At(s + t) = At(s) + t · direction` |
| Hittables.SetFaceNormal | rt/hittable.go:15-24 | `frontFace` holds exactly when the ray opposes the outward normal; the normal is the outward normal on the front face and its negation on the back face; it never points along the ray; it keeps the outward normal's squared length; `p`, `t` and the material are unchanged |
| Hittables.SetFaceNormalIdempotent | rt/hittable.go:15-24 | orienting an already oriented record again changes nothing |
| Spheres.RecordAt | rt/sphere.go:37-45 | the record holds `t`, the point `ray.At(t)` and the sphere's material |
| Spheres.Discriminant | rt/sphere.go:18-22 | `halfB² − a·c`; negative exactly when no point of the ray is on the sphere (NoSurfacePoint, SurfacePointsAreRoots) |
| Spheres.NearRoot | rt/sphere.go:27-29 | `(−halfB − √D)/a`, the smaller solution of the quadratic (RootEquations, RootsOfQuadratic, RootsOrdered) |
| Spheres.FarRoot | rt/sphere.go:27-31 | `(−halfB + √D)/a`, the larger solution of the quadratic (RootEquations, RootsOfQuadratic, RootsOrdered) |
| Spheres.Hit | rt/sphere.go:17-47 | a hit lies in the inclusive window [tMin, tMax], is one of the two roots and carries the record at that root; a miss returns the zero record |
| Spheres.OnSurfaceIffRoot | rt/sphere.go:18-22 | `|At(t) − C|² = r²` exactly when `t` solves the quadratic `a t² + 2 halfB t + c = 0` |
| Spheres.SurfaceDistance | rt/sphere.go:18-21 | the quadratic at `t` is `|At(t) − C|² − r²`, with `oc`, `a`, `halfB` and `c` as the source computes them |
| Spheres.DistanceAlongLine | rt/sphere.go:18-21 | `|oc + t d|² − r²` expands to `|d|² t² + 2 (oc·d) t + (|oc|² − r²)` |
| Spheres.RootEquations | rt/sphere.go:27-31 | `a > 0`, and the roots satisfy `a t = −halfB ∓ √D` |
| Spheres.NoSurfacePoint | rt/sphere.go:22-25 | with a negative discriminant no point of the ray lies on the sphere |
| Spheres.RootsOfQuadratic | rt/sphere.go:18-31 | with a non-negative discriminant, the quadratic vanishes exactly at the near and the far root, and near ≤ far |
| Spheres.SurfacePointsAreRoots | rt/sphere.go:27-31 | with a non-negative discriminant, a point of the ray is on the sphere exactly when its parameter is the near or the far root, and near ≤ far |
| Spheres.QuadraticRoots | rt/sphere.go:18-31 | the two roots are the only solutions of the quadratic |
| Spheres.NoRealRoot | rt/sphere.go:22-25 | with a negative discriminant the quadratic has no solution |
| Spheres.RootsOrdered | rt/sphere.go:29-31 | the near root is at most the far root |
| Spheres.HitRootPreference | rt/sphere.go:23-35 | a negative discriminant misses; the near root wins whenever it is in the window; the far root is used only when the near one is not; with neither in the window there is no hit |
| Spheres.HitIsFirstSurfacePoint | rt/sphere.go:17-47 | a hit is on the surface and no surface point lies in [tMin, t); a miss means no surface point lies in the window |
| Spheres.HitNarrowing | rt/sphere.go:29-35 | lowering the upper bound of the window keeps a hit that is still in it and otherwise misses |
| Spheres.HitNormalIsUnit | rt/sphere.go:44-45 | the normal of a hit is a unit vector, for either sign of the radius |
| Spheres.HitNormalOrientation | rt/sphere.go:44-45 | the outward normal is `(P − C)/r`, so it flips for a negative radius, and the stored normal opposes the ray |
| HittableLists.ListHitSpec | rt/hittable_list.go:7-20 | a reported hit lies in [tMin, tMax]; without a hit the record is the zero record |
| HittableLists.ListHit | rt/hittable_list.go:7-20 | the loop that shrinks `closestSoFar` computes `ListHitSpec` |
| HittableLists.ListHitEmpty | rt/hittable_list.go:8-19 | the empty list misses and returns the zero record |
| HittableLists.ListHitAny | rt/hittable_list.go:12-18 | the list hits exactly when some object hits on the full window |
| HittableLists.ListHitClosest | rt/hittable_list.go:12-18 | no object's own hit on the full window is nearer than the reported one |
| HittableLists.ListHitLastOfClosest | rt/hittable_list.go:12-18 | the reported hit is exactly some object's own hit, and every later object that hits is strictly farther, so on a tie the later object wins |
| HittableLists.ReportedIndex | rt/hittable_list.go:12-18 | when the scan hits, it returns an index whose object's full-window hit is the reported one, and every later object that hits is strictly farther |
| HittableLists.ListHitRecord | rt/hittable_list.go:12-18 | a reported record has a unit normal and the material of an object of the list |
| Materials.LambertianScatter | rt/material.go:13-23 | always scatters, from `rec.p`, with the albedo as attenuation |
| Materials.Reflect | rt/material.go:64-66 | mirror about the normal plane; ReflectFacts: negates the normal component, keeps the length, undoes itself |
| Materials.RefractPerp | rt/material.go:68-70 | the tangential component of the refracted ray (RefractPerpFacts) |
| Materials.Refract | rt/material.go:68-73 | Snell refraction; RefractFacts and RefractIsUnit: never zero, not on the normal's side, unit when refraction is possible |
| Materials.Reflectance | rt/material.go:75-80 | Schlick's approximation; ReflectanceBounds: lies in [r0, 1] for a cosine in [0, 1] |
| Materials.R0 | rt/material.go:77-78 | `((1 − k)/(1 + k))²`; R0Bounds: in [0, 1) for a positive index |
| Materials.RefractionRatio | rt/material.go:44-49 | `1/ior` on the front face, `ior` on the back (RefractionRatiosReciprocal, RefractionRatioPositive) |
| Materials.CosTheta | rt/material.go:51 | `min(−u·n, 1)`; CosThetaOfUnits: equals `−u·n` in [-1, 1] for unit vectors |
| Materials.CannotRefract | rt/material.go:52-53 | `ratio·sinθ > 1`; when it holds the glass reflects (DielectricTotalInternalReflection), and otherwise refraction gives a unit vector (RefractIsUnit) |
| Materials.LambertianDirection | rt/material.go:14-17 | the direction is normal + sample when that is not near zero, and the normal otherwise |
| Materials.MetalScatter | rt/material.go:31-36 | scatters exactly when the new direction has a positive dot product with the normal; origin `rec.p`, attenuation the albedo either way |
| Materials.MetalMirror | rt/material.go:31-36 | without fuzz the direction is the reflection of the unit direction, and it scatters exactly when the ray arrives against the normal |
| Materials.ScaledDotSign | rt/material.go:32-34 | scaling the direction by its positive length keeps the sign of its dot product with the normal |
| Materials.DielectricScatter | rt/material.go:42-61 | always scatters, from `rec.p`, with attenuation exactly (1, 1, 1) |
| Materials.RefractionRatiosReciprocal | rt/material.go:44-49 | the front-face ratio `1/ior` and the back-face ratio `ior` multiply to 1 |
| Materials.RefractionRatioPositive | rt/material.go:44-49 | a positive index gives a positive ratio on both faces |
| Materials.DielectricTotalInternalReflection | rt/material.go:51-56 | when `ratio·sinθ > 1` the glass reflects, whatever the random draw |
| Materials.DielectricDirectionIsUnit | rt/material.go:42-61 | for a positive index and a unit normal, the new direction is a unit vector, whether reflected or refracted |
| Materials.Scatter | rt/material.go:5-7 | dispatch: the origin is `rec.p`; Lambertian and glass always scatter; the attenuation is the albedo, or (1, 1, 1) for glass |
| Materials.ScatterDirectionNonZero | rt/material.go:13-61 | for a unit normal, every scattered ray has a non-zero direction |
| Materials.ReflectFacts | rt/material.go:64-66 | for a unit normal, reflection negates the normal component, keeps the length and undoes itself |
| Materials.CosThetaOfUnits | rt/material.go:51 | for unit vectors `min(−u·n, 1)` is `−u·n` and lies in [-1, 1] |
| Materials.TangentialFacts | rt/material.go:68-73 | the tangential part of `v` is orthogonal to `n`, with squared length `|v|² − (v·n)²` |
| Materials.RefractPerpFacts | rt/material.go:68-70 | the perpendicular part is the ratio times the tangential part of `uv`, orthogonal to `n`, with squared length `ratio²(1 − cos²θ)` |
| Materials.RefractFacts | rt/material.go:68-73 | the refracted ray does not leave on the normal's side, keeps the perpendicular part, is never zero, and has unit length when the perpendicular part is at most unit |
| Materials.NormalOffset | rt/material.go:68-73 | adding `−s·n` to a part orthogonal to the unit normal gives normal component `−s`, keeps the orthogonal part, and adds `s²` to the squared length |
| Materials.RefractableSineSquared | rt/material.go:52-53 | when refraction is possible (`ratio·sinθ ≤ 1`), the perpendicular part's squared length `ratio²(1 − cos²θ)` is at most 1 |
| Materials.RefractIsUnit | rt/material.go:52-58 | when refraction is possible, a unit direction refracts into a unit direction |
| Materials.R0Bounds | rt/material.go:75-78 | for a positive index, `r0` lies in [0, 1) |
| Materials.ReflectanceBounds | rt/material.go:75-80 | for a cosine in [0, 1] and a positive index, `0 ≤ r0 ≤ reflectance ≤ 1`, with equality to `r0` at cosine 1 |
| Trace.SkyColor | rt/trace.go:18-22 | the sky has red in [0.5, 1], green in [0.7, 1] and blue exactly 1 |
| Trace.SkyColorVertical | rt/trace.go:18-22 | straight up the sky is (0.5, 0.7, 1), straight down it is white |
| Trace.VerticalUnit | rt/trace.go:18-19 | the unit vector of `(0, c, 0)` has `y = 1` for `c > 0` and `y = −1` for `c < 0` |
| Trace.WorldHitRecord | rt/trace.go:11-12 | a hit in a valid world has a unit normal and a valid material of the world |
| Trace.RayColor | rt/trace.go:5-23 | the traced colour; its cases are RayColorExhausted, RayColorHit and RayColorMiss, and RayColorInUnitCube bounds it |
| Trace.RayColorExhausted | rt/trace.go:6-8 | with `depth ≤ 0` the colour is black |
| Trace.RayColorHit | rt/trace.go:11-15 | the world is queried on [0.001, MaxFloat64]; a scatter gives attenuation ⊙ the colour of the scattered ray one bounce shallower, which has a non-zero direction; an absorbed ray is black |
| Trace.RayColorMiss | rt/trace.go:11-22 | a ray with depth left that hits nothing on [0.001, MaxFloat64] gets the sky gradient |
| Trace.RayColorEmptyWorld | rt/trace.go:11-22 | in an empty world every ray with depth left sees the sky |
| Trace.AttenuateInUnitCube | rt/trace.go:13 | the componentwise product of two colours in [0, 1]³ stays in [0, 1]³ |
| Trace.RayColorInUnitCube | rt/trace.go:5-23 | when every albedo lies in [0, 1]³, so does every traced colour |
| Trace.RayColorUsesDepthDraws | rt/trace.go:5-13 | a path of `depth` bounces depends only on its first `depth` draws |
| Cameras.Backward | rt/camera.go:31 | `w` is a unit vector and not parallel to the up vector |
| Cameras.ViewNonZero | rt/camera.go:31-32 | a usable view has distinct eye and target |
| Cameras.UpCrossUnitNonZero | rt/camera.go:31-32 | normalising the view direction keeps it off the vertical |
| Cameras.NewCamera | rt/camera.go:21-50 | the origin is `lookFrom`, the lens radius is half the aperture, and the viewport's centre `llc + H/2 + V/2` is `origin − focusDist·w` |
| Cameras.CameraFrame | rt/camera.go:30-33 | `u = unit(vup × w)` and `v = w × u` complete `w` to an orthonormal frame |
| Cameras.NewCameraFrame | rt/camera.go:30-33 | the camera's `u`, `v` and `w` are orthonormal |
| Cameras.NewCameraViewport | rt/camera.go:27-38 | the viewport edges are orthogonal to each other and to `w`, and the width is `AspectRatio` times the height |
| Cameras.GetRay | rt/camera.go:52-59 | `origin + direction = llc + s·H + t·V`, whatever the lens sample |
| Cameras.GetRayPinhole | rt/camera.go:53-56 | with a zero lens radius the ray starts at the camera's origin |
| Cameras.OrthogonalSumLengthSquared | rt/camera.go:54 | `|a u + b v|² = a² + b²` for orthonormal `u`, `v` |
| Cameras.ScaledDiskBound | rt/camera.go:53 | a point strictly inside the unit ball, scaled by `l`, has `x² + y² ≤ l²` |
| Cameras.LensOffsetBound | rt/camera.go:53-54 | the lens offset of a sample inside the unit disk has squared length at most `lensRadius²` |
| Cameras.GetRayFromLens | rt/camera.go:53-56 | with a sample inside the unit disk, the ray starts within the lens radius of the origin |
| Cameras.GetRayForward | rt/camera.go:37-57 | every camera ray has component `−focusDist` along `w`, so it is non-zero when the focus distance is |
| Cameras.OffsetOrthogonal | rt/camera.go:54 | the lens offset is orthogonal to `w` |
| Cameras.ForwardComponent | rt/camera.go:39-57 | the `w` component of `llc + sH + tV − origin − offset` is `−focusDist` |
| Cameras.DiskCandidate | rt/camera.go:67 | a candidate has `x, y` in [-1, 1) and `z = 0` |
| Cameras.RandomInUnitDisk | rt/camera.go:65-72 | the point returned has `z = 0` and `x² + y² < 1`; it is the first candidate of the draws that does; when none is returned, every candidate was rejected |
| Render.ImageHeightValue | main/main.go:33-34 | the height 360 is `imageWidth / AspectRatio`, which is exact, so truncating it to an integer loses nothing |
| Render.Clamp | main/main.go:182-190 | for `min ≤ max` the result lies in [min, max], and a value already inside is returned unchanged |
| Render.ClampIdempotentMonotone | main/main.go:182-190 | clamping is idempotent and monotone |
| Render.ToByte | main/main.go:166-168 | the byte is `⌊256 x⌋` for `x` in [0, 0.999), and its type bounds it to 0..255 |
| Render.ToByteMonotoneEnds | main/main.go:166-168 | the conversion is monotone; values below 1/256 give 0 and values from 0.999 up give 255 |
| Render.ColorToRGBA | main/main.go:159-171 | alpha is always 255 |
| Render.GammaChannel | main/main.go:160-164 | `√(c/samplesPerPixel)`; AveragedChannel: in [0, 1] for a channel in [0, samplesPerPixel] |
| Render.WriteColor | main/main.go:159-171 | sets exactly pixel (x, y) when it lies in the image and changes nothing otherwise; reports (x, y) as its write target |
| Render.RandomInHemisphere | main/main.go:173-180 | the result is the sample or its negation, has the sample's squared length, and has a non-negative dot product with the normal |
| Render.SampleU | main/main.go:148 | for a draw in [0, 1), `u` lies in `[i/(w−1), (i+1)/(w−1))` |
| Render.SampleV | main/main.go:149 | for a draw in [0, 1), `v` lies in `[j/(h−1), (j+1)/(h−1))` |
| Render.SampleColor | main/main.go:148-151 | the colour of one jittered camera ray traced to depth `maxDepth`; SampleColorInUnitCube bounds it |
| Render.PixelSum | main/main.go:146-153 | the in-order sum of the first `n` samples; SamplePixel computes it and PixelSumBounded bounds it |
| Render.SamplePixel | main/main.go:146-153 | the sample loop computes the in-order sum of `samplesPerPixel` traced samples |
| Render.SampleColorInUnitCube | main/main.go:148-151 | when every albedo lies in [0, 1]³, one traced sample of a pixel lies in [0, 1]³ |
| Render.PixelSumBounded | main/main.go:146-153 | when every albedo lies in [0, 1]³, each channel of a sum of `n` samples lies in [0, n] |
| Render.PixelAverageInUnitInterval | main/main.go:160-164 | when every albedo lies in [0, 1]³, each gamma-corrected channel of the pixel's average lies in [0, 1] |
| Render.AveragedColor | main/main.go:160-164 | channels in [0, samplesPerPixel] average and gamma-correct into [0, 1] |
| Render.AveragedChannel | main/main.go:160-164 | one channel in [0, samplesPerPixel], scaled by `1/samplesPerPixel`, and its square root lie in [0, 1] |
| Render.SqrtUnitInterval | main/main.go:162-164 | the square root of a number in [0, 1] lies in [0, 1] |
| Render.NewCameraRaysValid | main/main.go:150 | with a non-zero focus distance, every ray of the camera has a non-zero direction and can be traced |
| Render.Targets | main/main.go:143-154 | write `k` of the loop goes to `(k % imageWidth, k / imageWidth − 1)`; TargetsRow ties this closed form to the passes of the loop over `j`, and WriteOrderCoversOnce and WriteOrderTargets describe the pixels it reaches |
| Render.WriteOrder | main/main.go:143-154 | all `(imageHeight + 1)·imageWidth` write targets in loop order; WriteOrderCoversOnce and WriteOrderTargets describe them |
| Render.RowTargetsAt | main/main.go:145-154 | the `x`-th write of one row pass goes to column `x` of that row |
| Render.TargetsRow | main/main.go:143-154 | the writes of the first `r + 1` row passes are those of the first `r` followed by one pass over image row `r − 1`, left to right |
| Render.PixelValue | main/main.go:146-170 | the bytes written for a pixel: `ColorToRGBA` of its full sample sum; RenderImage stores it at every pixel |
| Render.RenderPixel | main/main.go:146-154 | one pixel's sample loop and write: pixel `(i, imageHeight − 1 − j)` gets the bytes of its sample sum; no other cell changes; reports that pixel as its write target |
| Render.RenderRow | main/main.go:145-155 | one pass of the loop over `i`: its writes go left to right along image row `imageHeight − 1 − j`, which then holds that row's pixel bytes; no other cell changes |
| Render.RenderImage | main/main.go:142-157 | its writes come in the order of `WriteOrder`; afterwards every pixel of the image holds the bytes of its own sample sum, and every other array cell is unchanged |
| Render.WriteOrderCoversOnce | main/main.go:143-154 | every pixel of the image is written exactly once |
| Render.WriteOrderTargets | main/main.go:143-154 | every write targets a column of the image; the only row outside the image that is written is −1 |

## Left out

- Floating point: `float64` is `real`, so the model says nothing about rounding, NaN or infinities. `math.MaxFloat64` is the exact value (2 − 2⁻⁵²)·2¹⁰²³.
- Division by zero, which yields infinities or NaN in Go, is excluded by preconditions:
  - `Vec3.Div` needs a non-zero divisor;
  - `UnitVector` needs a non-zero vector;
  - `Sphere.Hit` needs a non-zero ray direction and a non-zero radius;
  - a dielectric's index may be neither 0 nor −1;
  - `NewCamera` needs a view that is not vertical;
  - `RayColor` needs a valid world and a non-zero ray direction.

  The lemmas show that the scattered rays and the camera rays meet these preconditions.
- `math.Sqrt`, `math.Tan` and `math.Pi` are parameters. `IsSqrt` states what a square root satisfies. Nothing is assumed about `tan`, so nothing is claimed about the field of view.
- rt/rand.go's generator state is not modelled: every draw is an input.
  - `RandUnitVec3` (rt/vec.go:138-140) is the `unitVec` of a `Draw`, and its distribution is not modelled.
  - One `Draw` per bounce carries all three kinds of random numbers a scatter may take. The source takes only the ones the material uses, so the pairing of draws with bounces differs from the source's global stream.
- Vectors.RandVec3InUnitSphere: the Go loop repeats until it accepts. Here it scans a finite sequence of candidates and reports `found == false` when none is accepted. Termination of the infinite loop is not modelled.
- Cameras.RandomInUnitDisk: the same finite-prefix treatment as `RandVec3InUnitSphere`.
- `GetRay` takes the disk sample as a parameter instead of calling `randomInUnitDisk` itself.
- The `Hittable` interface is modelled for spheres only. A `HittableList` nested inside another list is not modelled, and neither is the rest of the interface.
- A nil `Material` is not modelled. Go's zero `HitRecord` has one, modelled as `None`, but a reported hit always carries the sphere's material.
- main.go's scene builders (`renderTestScene`, `renderRandomScene`) and `main` are random scene authoring and process plumbing. They are not modelled, and neither is the I/O: `os.Create`, `png.Encode`, `log.Println` and `rt.CheckNoError`. The image is an array passed to `RenderImage` rather than allocated by `image.NewRGBA`.
- The unused `focalLength` constant of rt/camera.go, and the trivial accessors `X`, `Y`, `Z`, `R`, `G`, `B` and the `NewPoint3`/`NewColor` constructors, have no properties of their own.
- Concurrency: none exists in the code, so none is modelled.
- Physical and statistical claims (the distribution of samples, the accuracy of Schlick's approximation) cannot be stated about exact real arithmetic and are not modelled.
