/**
  The pixel pipeline of main/main.go: `renderImage` walks the image row by
  row, sums `SamplesPerPixel` traced samples per pixel, and `writeColor`
  turns the sum into gamma-corrected bytes. The image is a two-dimensional
  array indexed [row, column]; like Go's `image.RGBA.Set`, a write outside
  the array is ignored. The random numbers of every sample arrive through
  the oracle `draws(j, i, s)`: the two viewport jitters, the lens sample and
  the draws of the traced path.
 */
module Render {
  import opened RealMath
  import opened Vectors
  import opened Spheres
  import opened Materials
  import opened Trace
  import opened Cameras

  const SamplesPerPixel: nat := 300
  const MaxDepth: nat := 50
  const ImageWidth: int := 640

  /** The image height main.go derives from the width; ImageHeightValue checks the derivation. */
  const ImageHeight: int := 360

  newtype uint8 = x: int | 0 <= x < 256

  datatype RGBA = RGBA(r: uint8, g: uint8, b: uint8, a: uint8)

  /** The random numbers one sample consumes, in the order the source draws them. */
  datatype SampleDraw = SampleDraw(du: real, dv: real, disk: Vec3, bounces: seq<Draw>)

  /** int(float64(imageWidth) / aspectRatio): 640 / (16/9) is exactly 360, so the truncation loses nothing. */
  lemma ImageHeightValue()
    ensures ImageHeight == (ImageWidth as real / AspectRatio).Floor
    ensures ImageHeight as real == ImageWidth as real / AspectRatio
  {
  }

  // ---------------------------------------------------------------------
  // clamp and the byte conversion of writeColor

  function Clamp(x: real, min: real, max: real): (r: real)
    ensures min <= max ==> min <= r <= max
    ensures min <= x <= max ==> r == x
  {
    if x < min then min
    else if x > max then max
    else x
  }

  /** Clamping twice is clamping once, and clamping is monotone. */
  lemma ClampIdempotentMonotone(x: real, y: real, min: real, max: real)
    requires min <= max
    ensures Clamp(Clamp(x, min, max), min, max) == Clamp(x, min, max)
    ensures x <= y ==> Clamp(x, min, max) <= Clamp(y, min, max)
  {
  }

  /** uint8(256 * clamp(x, 0, 0.999)): the conversion truncates, which is the floor of a non-negative value. */
  function ToByte(x: real): (b: uint8)
    ensures 0.0 <= x < 0.999 ==> b as int == (256.0 * x).Floor
  {
    var scaled := 256.0 * Clamp(x, 0.0, 0.999);
    assert 0.0 <= scaled < 256.0;
    scaled.Floor as uint8
  }

  /** The byte conversion is monotone, maps everything below 1/256 to 0 and everything from 0.999 up to 255. */
  lemma ToByteMonotoneEnds(x: real, y: real)
    ensures x <= y ==> ToByte(x) <= ToByte(y)
    ensures x < 1.0 / 256.0 ==> ToByte(x) == 0
    ensures 0.999 <= x ==> ToByte(x) == 255
  {
    ClampIdempotentMonotone(x, y, 0.0, 0.999);
  }

  /** 1 / samplesPerPixel: the sum of the samples becomes their average. */
  const Scale: real := 1.0 / SamplesPerPixel as real

  /** Gamma 2: the square root of the averaged channel. */
  function GammaChannel(c: real, sqrt: real -> real): real {
    sqrt(c * Scale)
  }

  /** writeColor's pixel value; alpha is always opaque. */
  function ColorToRGBA(c: Color, sqrt: real -> real): (p: RGBA)
    ensures p.a == 255
  {
    RGBA(ToByte(GammaChannel(c.R(), sqrt)), ToByte(GammaChannel(c.G(), sqrt)), ToByte(GammaChannel(c.B(), sqrt)), 255)
  }

  /**
    writeColor: set pixel (x, y), or do nothing when it lies outside the image.
    The ghost `target` records the pixel the call addressed, for the write log.
   */
  method WriteColor(img: array2<RGBA>, x: int, y: int, c: Color, sqrt: real -> real)
    returns (ghost target: (int, int))
    modifies img
    ensures target == (x, y)
    ensures forall y', x' :: 0 <= y' < img.Length0 && 0 <= x' < img.Length1 ==>
              img[y', x'] == if y' == y && x' == x then ColorToRGBA(c, sqrt) else old(img[y', x'])
  {
    target := (x, y);
    if 0 <= y < img.Length0 && 0 <= x < img.Length1 {
      img[y, x] := ColorToRGBA(c, sqrt);
    }
  }

  // ---------------------------------------------------------------------
  // randomInHemisphere

  /** randomInHemisphere: the in-sphere sample `us`, flipped when it points away from the normal. */
  function RandomInHemisphere(normal: Vec3, us: Vec3): (r: Vec3)
    ensures r.Dot(normal) >= 0.0
    ensures r == us || r == us.Neg()
    ensures r.LengthSquared() == us.LengthSquared()
  {
    NegDot(us, normal);
    if us.Dot(normal) > 0.0 then us else us.Neg()
  }

  // ---------------------------------------------------------------------
  // Sampling a pixel

  /** The horizontal viewport coordinate of a sample of column i. */
  function SampleU(i: int, draw: real): (u: real)
    requires 0.0 <= draw < 1.0
    ensures i as real / (ImageWidth - 1) as real <= u < (i + 1) as real / (ImageWidth - 1) as real
  {
    (i as real + draw) / (ImageWidth - 1) as real
  }

  /** The vertical viewport coordinate of a sample of loop row j. */
  function SampleV(j: int, draw: real): (v: real)
    requires 0.0 <= draw < 1.0
    ensures j as real / (ImageHeight - 1) as real <= v < (j + 1) as real / (ImageHeight - 1) as real
  {
    (j as real + draw) / (ImageHeight - 1) as real
  }

  /** Every ray of the camera can be traced: its direction is never zero. */
  ghost predicate CameraRaysValid(cam: Camera) {
    forall s, t, disk :: GetRay(cam, s, t, disk).direction != Zero
  }

  predicate ValidSampleDraw(d: SampleDraw) {
    0.0 <= d.du < 1.0 && 0.0 <= d.dv < 1.0 && MaxDepth <= |d.bounces|
  }

  /** What rendering needs: a square root, a valid world and camera, and enough draws for every sample. */
  ghost predicate SceneReady(cam: Camera, world: seq<Sphere>, draws: (int, int, int) -> SampleDraw, sqrt: real -> real) {
    IsSqrt(sqrt) && ValidWorld(world) && CameraRaysValid(cam) &&
    forall j, i, s :: ValidSampleDraw(draws(j, i, s))
  }

  /** The colour of one sample of pixel (i, j): a jittered camera ray traced to depth MaxDepth. */
  function SampleColor(cam: Camera, world: seq<Sphere>, i: int, j: int, d: SampleDraw, sqrt: real -> real): Color
    requires IsSqrt(sqrt) && ValidWorld(world) && CameraRaysValid(cam) && ValidSampleDraw(d)
  {
    var ray := GetRay(cam, SampleU(i, d.du), SampleV(j, d.dv), d.disk);
    RayColor(ray, world, MaxDepth, d.bounces, sqrt)
  }

  /** The sum of the first n samples of pixel (i, j), in the order the source adds them. */
  function PixelSum(cam: Camera, world: seq<Sphere>, i: int, j: int, draws: (int, int, int) -> SampleDraw,
                    sqrt: real -> real, n: nat): Color
    requires SceneReady(cam, world, draws, sqrt)
  {
    if n == 0 then Black
    else Color(PixelSum(cam, world, i, j, draws, sqrt, n - 1).vec.Add(SampleColor(cam, world, i, j, draws(j, i, n - 1), sqrt).vec))
  }

  /** With every albedo in [0, 1], each channel of the sum of n samples lies in [0, n]. */
  lemma {:induction false} PixelSumBounded(cam: Camera, world: seq<Sphere>, i: int, j: int,
                                           draws: (int, int, int) -> SampleDraw, sqrt: real -> real, n: nat)
    requires SceneReady(cam, world, draws, sqrt) && AlbedosInUnitCube(world)
    ensures var c := PixelSum(cam, world, i, j, draws, sqrt, n);
            0.0 <= c.R() <= n as real && 0.0 <= c.G() <= n as real && 0.0 <= c.B() <= n as real
  {
    if n > 0 {
      PixelSumBounded(cam, world, i, j, draws, sqrt, n - 1);
      SampleColorInUnitCube(cam, world, i, j, draws(j, i, n - 1), sqrt);
      SumStepBounded(PixelSum(cam, world, i, j, draws, sqrt, n - 1), SampleColor(cam, world, i, j, draws(j, i, n - 1), sqrt), n);
    }
  }

  /** Adding a colour of the unit cube to one with channels in [0, n - 1] gives channels in [0, n]. */
  lemma SumStepBounded(sum: Color, sample: Color, n: nat)
    requires 0 < n
    requires 0.0 <= sum.R() <= (n - 1) as real && 0.0 <= sum.G() <= (n - 1) as real && 0.0 <= sum.B() <= (n - 1) as real
    requires InUnitCube(sample)
    ensures var c := Color(sum.vec.Add(sample.vec));
            0.0 <= c.R() <= n as real && 0.0 <= c.G() <= n as real && 0.0 <= c.B() <= n as real
  {
  }

  /** With every albedo in [0, 1], one sample's colour lies in the unit cube. */
  lemma SampleColorInUnitCube(cam: Camera, world: seq<Sphere>, i: int, j: int, d: SampleDraw, sqrt: real -> real)
    requires IsSqrt(sqrt) && ValidWorld(world) && CameraRaysValid(cam) && ValidSampleDraw(d)
    requires AlbedosInUnitCube(world)
    ensures InUnitCube(SampleColor(cam, world, i, j, d, sqrt))
  {
    RayColorInUnitCube(GetRay(cam, SampleU(i, d.du), SampleV(j, d.dv), d.disk), world, MaxDepth, d.bounces, sqrt);
  }

  /** The square root of a number in [0, 1] lies in [0, 1]. */
  lemma SqrtUnitInterval(sqrt: real -> real, x: real)
    requires IsSqrt(sqrt) && 0.0 <= x <= 1.0
    ensures 0.0 <= sqrt(x) <= 1.0
  {
    SquareAtMostOne(sqrt(x));
  }

  /**
    With every albedo in [0, 1], the average of a pixel's samples lies in
    [0, 1] on every channel, and so does its gamma-corrected value: the clamp
    of writeColor only trims values at 0.999 and above.
   */
  lemma PixelAverageInUnitInterval(cam: Camera, world: seq<Sphere>, i: int, j: int,
                                   draws: (int, int, int) -> SampleDraw, sqrt: real -> real, n: nat)
    requires SceneReady(cam, world, draws, sqrt) && AlbedosInUnitCube(world)
    requires n == SamplesPerPixel
    ensures var c := PixelSum(cam, world, i, j, draws, sqrt, n);
            0.0 <= GammaChannel(c.R(), sqrt) <= 1.0 && 0.0 <= GammaChannel(c.G(), sqrt) <= 1.0 &&
            0.0 <= GammaChannel(c.B(), sqrt) <= 1.0
  {
    PixelSumBounded(cam, world, i, j, draws, sqrt, n);
    AveragedColor(PixelSum(cam, world, i, j, draws, sqrt, n), sqrt);
  }

  lemma AveragedColor(c: Color, sqrt: real -> real)
    requires IsSqrt(sqrt)
    requires 0.0 <= c.R() <= SamplesPerPixel as real && 0.0 <= c.G() <= SamplesPerPixel as real &&
             0.0 <= c.B() <= SamplesPerPixel as real
    ensures 0.0 <= GammaChannel(c.R(), sqrt) <= 1.0 && 0.0 <= GammaChannel(c.G(), sqrt) <= 1.0 &&
            0.0 <= GammaChannel(c.B(), sqrt) <= 1.0
  {
    AveragedChannel(c.R(), sqrt);
    AveragedChannel(c.G(), sqrt);
    AveragedChannel(c.B(), sqrt);
  }

  /** A channel sum in [0, samplesPerPixel] averages, and gamma-corrects, into [0, 1]. */
  lemma AveragedChannel(x: real, sqrt: real -> real)
    requires IsSqrt(sqrt) && 0.0 <= x <= SamplesPerPixel as real
    ensures 0.0 <= x * Scale <= 1.0 && 0.0 <= GammaChannel(x, sqrt) <= 1.0
  {
    assert x * Scale == x / 300.0;
    SqrtUnitInterval(sqrt, x * Scale);
  }

  /** The inner loop of renderImage: accumulate SamplesPerPixel samples. */
  method SamplePixel(cam: Camera, world: seq<Sphere>, i: int, j: int, draws: (int, int, int) -> SampleDraw,
                     sqrt: real -> real) returns (pixelColor: Color)
    requires SceneReady(cam, world, draws, sqrt)
    ensures pixelColor == PixelSum(cam, world, i, j, draws, sqrt, SamplesPerPixel)
  {
    pixelColor := Black;
    for s := 0 to SamplesPerPixel
      invariant pixelColor == PixelSum(cam, world, i, j, draws, sqrt, s)
    {
      var rc := SampleColor(cam, world, i, j, draws(j, i, s), sqrt);
      pixelColor := Color(pixelColor.vec.Add(rc.vec));
    }
  }

  /** The bytes renderImage stores for column x of loop row j. */
  ghost function PixelValue(cam: Camera, world: seq<Sphere>, x: int, j: int, draws: (int, int, int) -> SampleDraw,
                            sqrt: real -> real): RGBA
    requires SceneReady(cam, world, draws, sqrt)
  {
    ColorToRGBA(PixelSum(cam, world, x, j, draws, sqrt, SamplesPerPixel), sqrt)
  }

  /** A camera built with a non-zero focus distance can trace all its rays. */
  lemma NewCameraRaysValid(lookFrom: Point3, lookAt: Point3, vertFovDeg: real, aperture: real, focusDist: real,
                           pi: real, tan: real -> real, sqrt: real -> real)
    requires IsSqrt(sqrt) && ValidView(lookFrom, lookAt) && focusDist != 0.0
    ensures CameraRaysValid(NewCamera(lookFrom, lookAt, vertFovDeg, aperture, focusDist, pi, tan, sqrt))
  {
    var cam := NewCamera(lookFrom, lookAt, vertFovDeg, aperture, focusDist, pi, tan, sqrt);
    forall s, t, disk
      ensures GetRay(cam, s, t, disk).direction != Zero
    {
      GetRayForward(lookFrom, lookAt, vertFovDeg, aperture, focusDist, pi, tan, sqrt, s, t, disk);
    }
  }

  // ---------------------------------------------------------------------
  // renderImage and the pixels it covers

  /** The first n targets written by renderImage: write k goes to column k % width of row k / width - 1. */
  function Targets(n: nat): (w: seq<(int, int)>)
    ensures |w| == n
  {
    seq(n, k => (k % ImageWidth, k / ImageWidth - 1))
  }

  /** All targets: rows j = imageHeight down to 0, that is image rows -1 up to imageHeight - 1. */
  function WriteOrder(): seq<(int, int)> {
    Targets((ImageHeight + 1) * ImageWidth)
  }

  /** The targets of one pass of the outer loop: the first n columns of `row`, left to right. */
  function RowTargets(row: int, n: nat): (w: seq<(int, int)>)
    ensures |w| == n
  {
    if n == 0 then [] else RowTargets(row, n - 1) + [(n - 1, row)]
  }

  /** Write x of a row goes to column x of that row. */
  lemma {:induction false} RowTargetsAt(row: int, n: nat, x: int)
    requires 0 <= x < n
    ensures RowTargets(row, n)[x] == (x, row)
  {
    if x < n - 1 {
      RowTargetsAt(row, n - 1, x);
    }
  }

  /** The next pass of the outer loop appends one whole row: row rowsDone - 1, columns 0 to imageWidth - 1. */
  lemma TargetsRow(rowsDone: nat)
    ensures Targets((rowsDone + 1) * ImageWidth) == Targets(rowsDone * ImageWidth) + RowTargets(rowsDone - 1, ImageWidth)
  {
    var n := rowsDone * ImageWidth;
    var whole, parts := Targets(n + ImageWidth), Targets(n) + RowTargets(rowsDone - 1, ImageWidth);
    forall k | 0 <= k < |whole|
      ensures whole[k] == parts[k]
    {
      if n <= k {
        DivModRow(rowsDone, k - n);
        RowTargetsAt(rowsDone - 1, ImageWidth, k - n);
      }
    }
    assert whole == parts;
  }

  /** Index rowsDone * imageWidth + x lies in column x of pass rowsDone. */
  lemma DivModRow(rowsDone: nat, x: int)
    requires 0 <= x < ImageWidth
    ensures (rowsDone * ImageWidth + x) % ImageWidth == x && (rowsDone * ImageWidth + x) / ImageWidth == rowsDone
  {
  }

  /** Pixel (x, y) lies in the image renderImage means to fill. */
  predicate InImage(x: int, y: int) {
    0 <= x < ImageWidth && 0 <= y < ImageHeight
  }

  /**
    The bytes renderImage computes for every pass of its outer loop, indexed
    [j][x] by loop row and column. A lemma hands out the table so that the
    loops below speak about its entries and unfold PixelValue only at the
    pixel they write.
   */
  lemma PixelTable(cam: Camera, world: seq<Sphere>, draws: (int, int, int) -> SampleDraw, sqrt: real -> real)
    returns (table: seq<seq<RGBA>>)
    requires SceneReady(cam, world, draws, sqrt)
    ensures |table| == ImageHeight + 1
    ensures forall j :: 0 <= j <= ImageHeight ==> RowOfPixels(table[j], cam, world, j, draws, sqrt)
  {
    table := seq(ImageHeight + 1, j => seq(ImageWidth, x => PixelValue(cam, world, x, j, draws, sqrt)));
  }

  /** `row` holds the bytes of every column of loop row j. */
  ghost predicate RowOfPixels(row: seq<RGBA>, cam: Camera, world: seq<Sphere>, j: int,
                              draws: (int, int, int) -> SampleDraw, sqrt: real -> real)
    requires SceneReady(cam, world, draws, sqrt)
  {
    |row| == ImageWidth &&
    forall x {:trigger PixelValue(cam, world, x, j, draws, sqrt)} ::
      0 <= x < ImageWidth ==> row[x] == PixelValue(cam, world, x, j, draws, sqrt)
  }

  /**
    renderImage. Loop row j is image row imageHeight - 1 - j; the first pass
    (j = imageHeight) targets row -1, which the image ignores. The ghost
    `writes` records every target in order.
   */
  method RenderImage(img: array2<RGBA>, cam: Camera, world: seq<Sphere>, draws: (int, int, int) -> SampleDraw,
                     sqrt: real -> real) returns (ghost writes: seq<(int, int)>)
    requires SceneReady(cam, world, draws, sqrt)
    modifies img
    ensures writes == WriteOrder()
    ensures forall y, x :: 0 <= y < img.Length0 && 0 <= x < img.Length1 ==>
              img[y, x] == if InImage(x, y) then PixelValue(cam, world, x, ImageHeight - 1 - y, draws, sqrt)
                           else old(img[y, x])
  {
    ghost var table := PixelTable(cam, world, draws, sqrt);
    writes := [];
    var j := ImageHeight;
    while j >= 0
      invariant -1 <= j <= ImageHeight
      invariant writes == Targets((ImageHeight - j) * ImageWidth)
      invariant forall y, x :: 0 <= y < img.Length0 && 0 <= x < img.Length1 ==>
                  img[y, x] == if InImage(x, y) && y < ImageHeight - 1 - j then table[ImageHeight - 1 - y][x]
                               else old(img[y, x])
    {
      ghost var rowWrites := RenderRow(img, cam, world, j, draws, sqrt, table[j]);
      TargetsRow(ImageHeight - j);
      writes := writes + rowWrites;
      j := j - 1;
    }
  }

  /** One pass of renderImage's outer loop: the columns of loop row j, left to right. */
  method RenderRow(img: array2<RGBA>, cam: Camera, world: seq<Sphere>, j: int, draws: (int, int, int) -> SampleDraw,
                   sqrt: real -> real, ghost row: seq<RGBA>)
    returns (ghost writes: seq<(int, int)>)
    requires SceneReady(cam, world, draws, sqrt)
    requires 0 <= j <= ImageHeight && RowOfPixels(row, cam, world, j, draws, sqrt)
    modifies img
    ensures writes == RowTargets(ImageHeight - 1 - j, ImageWidth)
    ensures forall y, x :: 0 <= y < img.Length0 && 0 <= x < img.Length1 ==>
              img[y, x] == if InImage(x, y) && y == ImageHeight - 1 - j then row[x] else old(img[y, x])
  {
    writes := [];
    for i := 0 to ImageWidth
      invariant writes == RowTargets(ImageHeight - 1 - j, i)
      invariant forall y, x :: 0 <= y < img.Length0 && 0 <= x < img.Length1 ==>
                  img[y, x] == if InImage(x, y) && y == ImageHeight - 1 - j && x < i then row[x] else old(img[y, x])
    {
      ghost var target := RenderPixel(img, cam, world, i, j, draws, sqrt, row);
      writes := writes + [target];
    }
  }

  /** The body of renderImage's column loop: sample pixel (i, j) and write it to image row imageHeight - 1 - j. */
  method RenderPixel(img: array2<RGBA>, cam: Camera, world: seq<Sphere>, i: int, j: int,
                     draws: (int, int, int) -> SampleDraw, sqrt: real -> real, ghost row: seq<RGBA>)
    returns (ghost target: (int, int))
    requires SceneReady(cam, world, draws, sqrt)
    requires 0 <= i < ImageWidth && RowOfPixels(row, cam, world, j, draws, sqrt)
    modifies img
    ensures target == (i, ImageHeight - 1 - j)
    ensures forall y, x :: 0 <= y < img.Length0 && 0 <= x < img.Length1 ==>
              img[y, x] == if y == ImageHeight - 1 - j && x == i then row[i] else old(img[y, x])
  {
    var pixelColor := SamplePixel(cam, world, i, j, draws, sqrt);
    assert row[i] == PixelValue(cam, world, i, j, draws, sqrt);
    target := WriteColor(img, i, ImageHeight - 1 - j, pixelColor, sqrt);
  }

  /** Every pixel of the image is written exactly once. */
  lemma WriteOrderCoversOnce(x: int, y: int)
    requires InImage(x, y)
    ensures var w := WriteOrder();
            exists k :: 0 <= k < |w| && w[k] == (x, y) &&
              forall k' :: 0 <= k' < |w| && w[k'] == (x, y) ==> k' == k
  {
    var w := WriteOrder();
    var k := (y + 1) * ImageWidth + x;
    assert w[k] == (x, y);
    forall k' | 0 <= k' < |w| && w[k'] == (x, y)
      ensures k' == k
    {
      assert k' % ImageWidth == x && k' / ImageWidth == y + 1;
    }
  }

  /** Every write targets a column of the image, and the only row outside the image it targets is -1. */
  lemma WriteOrderTargets(k: int)
    requires 0 <= k < |WriteOrder()|
    ensures 0 <= WriteOrder()[k].0 < ImageWidth
    ensures -1 <= WriteOrder()[k].1 < ImageHeight
  {
  }
}
