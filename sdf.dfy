/** ShapeSdf::Create (engine/shape/Shape.cpp): the signed distance field of a
    material raster. Two propagation grids are seeded, one with the material
    pixels and one with the empty pixels, propagated, combined into a signed
    distance (negative inside material), and smoothed by one 3x3 blur. */
module Sdf {
  import opened Vectors
  import opened Shapes
  import opened SdfGrid

  /** std::numeric_limits<float>::max() */
  const FloatMax: real := 340282346638528859811704183484516925440.0

  /** std::numeric_limits<float>::lowest() */
  const FloatLowest: real := -FloatMax

  /** What the model uses of glm::sqrt on an integer squared distance: it is
      0 at 0, 1 at 1, at most 1.5 at 2 (the root of 2 is about 1.414) and at
      least 1 at every positive integer. */
  ghost predicate RootLike(root: nat -> real) {
    root(0) == 0.0 && root(1) == 1.0 && root(2) <= 1.5 && forall n: nat :: n >= 1 ==> root(n) >= 1.0
  }

  /** The half-pixel correction: a strictly positive distance shrinks by 0.5. */
  function HalfPixelCorrected(d: real): (r: real)
    requires d == 0.0 || d >= 1.0
    ensures d == 0.0 ==> r == 0.0
    ensures d >= 1.0 ==> 0.5 <= r < d
  {
    if d > 0.0 then d - 0.5 else d
  }

  /** The pre-blur signed distance of a pixel, from the squared distances the
      outside grid (to material) and the inside grid (to empty space) found. */
  function SignedDistance(outsideSquared: nat, insideSquared: nat, root: nat -> real): real
    requires RootLike(root)
  {
    HalfPixelCorrected(root(outsideSquared)) - HalfPixelCorrected(root(insideSquared))
  }

  /** The sign of the pre-blur distance: zero outside distance (a material
      pixel) gives <= 0, zero inside distance (an empty pixel) gives >= 0, and
      with the other distance positive the value is at least half a pixel
      away from 0. */
  lemma SignedDistanceSign(outsideSquared: nat, insideSquared: nat, root: nat -> real)
    requires RootLike(root)
    ensures outsideSquared == 0 ==> SignedDistance(outsideSquared, insideSquared, root) <= 0.0
    ensures insideSquared == 0 ==> SignedDistance(outsideSquared, insideSquared, root) >= 0.0
    ensures outsideSquared == 0 && insideSquared > 0 ==> SignedDistance(outsideSquared, insideSquared, root) <= -0.5
    ensures insideSquared == 0 && outsideSquared > 0 ==> SignedDistance(outsideSquared, insideSquared, root) >= 0.5
  {
  }

  /** The seed written into the outside grid: material pixels are seeds. */
  function OutsideSeed(material: U8): Point {
    if material == MaterialEmptySpace then DefaultPoint else SeedPoint
  }

  /** The seed written into the inside grid: empty pixels are seeds. */
  function InsideSeed(material: U8): Point {
    if material == MaterialEmptySpace then SeedPoint else DefaultPoint
  }

  /** Every pixel is a seed of exactly one of the two grids. */
  lemma SeededInExactlyOneGrid(material: U8)
    ensures (OutsideSeed(material) == SeedPoint) != (InsideSeed(material) == SeedPoint)
    ensures OutsideSeed(material) == SeedPoint <==> material != MaterialEmptySpace
  {
  }

  /** glm::clamp on one coordinate. */
  function Clamp(v: int, lo: int, hi: int): (r: int)
    requires lo <= hi
    ensures lo <= r <= hi
    ensures lo <= v <= hi ==> r == v
  {
    if v < lo then lo else if v > hi then hi else v
  }

  /** Entry (yo, xo) of the 3x3 blur kernel: 4 in the centre, 2 on the edges,
      1 in the corners. */
  function KernelEntry(xo: int, yo: int): (r: real)
    requires -1 <= xo <= 1 && -1 <= yo <= 1
    ensures r > 0.0
  {
    if xo == 0 && yo == 0 then 4.0 else if xo == 0 || yo == 0 then 2.0 else 1.0
  }

  /** The kernel after `kernel *= 1.f / 16.f`. */
  function Weight(xo: int, yo: int): (r: real)
    requires -1 <= xo <= 1 && -1 <= yo <= 1
  {
    KernelEntry(xo, yo) * (1.0 / 16.0)
  }

  /** The field value at neighbour offset (xo, yo) of (x, y), each coordinate
      clamped into the raster. */
  function Sample(copy: seq<real>, width: nat, height: nat, x: int, y: int, xo: int, yo: int): real
    requires |copy| == width * height && 0 <= x < width && 0 <= y < height
  {
    var cx := Clamp(x + xo, 0, width - 1);
    var cy := Clamp(y + yo, 0, height - 1);
    FlatInBounds(cx, cy, width, height);
    copy[Flat(cx, cy, width)]
  }

  /** The first n weighted samples of row yo, xo running from -1 as in the
      inner loop. */
  function RowSum(copy: seq<real>, width: nat, height: nat, x: int, y: int, yo: int, n: nat): real
    requires |copy| == width * height && 0 <= x < width && 0 <= y < height
    requires -1 <= yo <= 1 && n <= 3
  {
    if n == 0 then 0.0
    else RowSum(copy, width, height, x, y, yo, n - 1) + Weight(n - 2, yo) * Sample(copy, width, height, x, y, n - 2, yo)
  }

  /** The first r full rows, yo running from -1 as in the outer loop. */
  function BlurSum(copy: seq<real>, width: nat, height: nat, x: int, y: int, r: nat): real
    requires |copy| == width * height && 0 <= x < width && 0 <= y < height && r <= 3
  {
    if r == 0 then 0.0 else BlurSum(copy, width, height, x, y, r - 1) + RowSum(copy, width, height, x, y, r - 2, 3)
  }

  /** The blurred value at (x, y): the weighted sum, then `sum *= 1.f / 9.f`. */
  function BlurAt(copy: seq<real>, width: nat, height: nat, x: int, y: int): real
    requires |copy| == width * height && 0 <= x < width && 0 <= y < height
  {
    BlurSum(copy, width, height, x, y, 3) * (1.0 / 9.0)
  }

  /** The nested loops add the nine weighted samples. */
  lemma BlurSumExpanded(copy: seq<real>, width: nat, height: nat, x: int, y: int)
    requires |copy| == width * height && 0 <= x < width && 0 <= y < height
    ensures BlurSum(copy, width, height, x, y, 3) ==
      (1.0 / 16.0) * (Sample(copy, width, height, x, y, -1, -1) + 2.0 * Sample(copy, width, height, x, y, 0, -1) + Sample(copy, width, height, x, y, 1, -1)
                    + 2.0 * Sample(copy, width, height, x, y, -1, 0) + 4.0 * Sample(copy, width, height, x, y, 0, 0) + 2.0 * Sample(copy, width, height, x, y, 1, 0)
                    + Sample(copy, width, height, x, y, -1, 1) + 2.0 * Sample(copy, width, height, x, y, 0, 1) + Sample(copy, width, height, x, y, 1, 1))
  {
    assert BlurSum(copy, width, height, x, y, 1) == RowSum(copy, width, height, x, y, -1, 3);
    assert BlurSum(copy, width, height, x, y, 2) == BlurSum(copy, width, height, x, y, 1) + RowSum(copy, width, height, x, y, 0, 3);
    assert BlurSum(copy, width, height, x, y, 3) == BlurSum(copy, width, height, x, y, 2) + RowSum(copy, width, height, x, y, 1, 3);
    RowExpanded(copy, width, height, x, y, -1);
    RowExpanded(copy, width, height, x, y, 0);
    RowExpanded(copy, width, height, x, y, 1);
  }

  lemma RowExpanded(copy: seq<real>, width: nat, height: nat, x: int, y: int, yo: int)
    requires |copy| == width * height && 0 <= x < width && 0 <= y < height && -1 <= yo <= 1
    ensures RowSum(copy, width, height, x, y, yo, 3) ==
      Weight(-1, yo) * Sample(copy, width, height, x, y, -1, yo) + Weight(0, yo) * Sample(copy, width, height, x, y, 0, yo)
      + Weight(1, yo) * Sample(copy, width, height, x, y, 1, yo)
  {
    assert RowSum(copy, width, height, x, y, yo, 1) == Weight(-1, yo) * Sample(copy, width, height, x, y, -1, yo);
    assert RowSum(copy, width, height, x, y, yo, 2) ==
      RowSum(copy, width, height, x, y, yo, 1) + Weight(0, yo) * Sample(copy, width, height, x, y, 0, yo);
  }

  /** Every sample is a value of the field. */
  lemma SampleBetween(copy: seq<real>, width: nat, height: nat, x: int, y: int, xo: int, yo: int, lo: real, hi: real)
    requires |copy| == width * height && 0 <= x < width && 0 <= y < height
    requires forall i :: 0 <= i < |copy| ==> lo <= copy[i] <= hi
    ensures lo <= Sample(copy, width, height, x, y, xo, yo) <= hi
  {
    var cx := Clamp(x + xo, 0, width - 1);
    var cy := Clamp(y + yo, 0, height - 1);
    FlatInBounds(cx, cy, width, height);
  }

  /** The kernel weights add up to 1, so with the extra factor 1/9 the blurred
      value lies between a ninth of the field's minimum and a ninth of its
      maximum; in particular a field that is everywhere <= 0 stays <= 0. */
  lemma BlurBetween(copy: seq<real>, width: nat, height: nat, x: int, y: int, lo: real, hi: real)
    requires |copy| == width * height && 0 <= x < width && 0 <= y < height
    requires forall i :: 0 <= i < |copy| ==> lo <= copy[i] <= hi
    ensures lo / 9.0 <= BlurAt(copy, width, height, x, y) <= hi / 9.0
  {
    BlurSumExpanded(copy, width, height, x, y);
    forall xo, yo ensures lo <= Sample(copy, width, height, x, y, xo, yo) <= hi {
      SampleBetween(copy, width, height, x, y, xo, yo, lo, hi);
    }
  }

  /** Seeding loop of Create: every material pixel becomes a seed of the outside
      grid, every empty pixel a seed of the inside grid; all other cells keep
      the sentinel. */
  method SeedGrids(image: seq<U8>, width: nat, height: nat) returns (outside: Grid, inside: Grid)
    requires |image| == width * height
    ensures fresh(outside) && fresh(outside.points) && fresh(inside) && fresh(inside.points)
    ensures outside.Valid() && inside.Valid() && outside.points != inside.points
    ensures outside.width == width && outside.height == height
    ensures inside.width == width && inside.height == height
    ensures forall i :: 0 <= i < |image| ==>
      outside.points[i] == OutsideSeed(image[i]) && inside.points[i] == InsideSeed(image[i])
  {
    outside := new Grid(width, height);
    inside := new Grid(width, height);
    var y := 0;
    while y < height
      invariant 0 <= y <= height
      invariant forall i :: 0 <= i < |image| ==>
        outside.points[i] == (if i < Flat(0, y, width) then OutsideSeed(image[i]) else DefaultPoint) &&
        inside.points[i] == (if i < Flat(0, y, width) then InsideSeed(image[i]) else DefaultPoint)
    {
      var x := 0;
      while x < width
        invariant 0 <= x <= width
        invariant forall i :: 0 <= i < |image| ==>
          outside.points[i] == (if i < Flat(x, y, width) then OutsideSeed(image[i]) else DefaultPoint) &&
          inside.points[i] == (if i < Flat(x, y, width) then InsideSeed(image[i]) else DefaultPoint)
      {
        FlatInBounds(x, y, width, height);
        var material := image[x + y * width];
        if material == MaterialEmptySpace {
          inside.Set(x, y, SeedPoint);
        } else {
          outside.Set(x, y, SeedPoint);
        }
        x := x + 1;
      }
      assert Flat(width, y, width) == Flat(0, y + 1, width);
      y := y + 1;
    }
    assert Flat(0, height, width) == |image|;
  }

  /** The pre-blur signed distance of cell i of the two propagated grids. */
  function CellDistance(outside: seq<Point>, inside: seq<Point>, root: nat -> real, i: int): real
    requires RootLike(root) && 0 <= i < |outside| && i < |inside|
  {
    SignedDistance(SquaredDistance(outside[i]), SquaredDistance(inside[i]), root)
  }

  /** The first n cells of d hold their pre-blur signed distance. */
  ghost predicate CombinedPrefix(outside: seq<Point>, inside: seq<Point>, root: nat -> real, d: seq<real>, n: int)
    requires RootLike(root)
  {
    |outside| == |d| && |inside| == |d| && 0 <= n <= |d| &&
    forall i :: 0 <= i < n ==> d[i] == CellDistance(outside, inside, root, i)
  }

  lemma CombinedStep(outside: seq<Point>, inside: seq<Point>, root: nat -> real,
                     before: seq<real>, after: seq<real>, n: int)
    requires RootLike(root)
    requires CombinedPrefix(outside, inside, root, before, n) && n < |before|
    requires after == before[n := CellDistance(outside, inside, root, n)]
    ensures CombinedPrefix(outside, inside, root, after, n + 1)
  {
  }

  /** The body of that loop for pixel (x, y): the root of each squared
      distance, less half a pixel when positive, outside minus inside. */
  method PixelDistance(outside: Grid, inside: Grid, root: nat -> real, x: int, y: int) returns (d: real)
    requires outside.Valid() && inside.Valid() && RootLike(root)
    requires inside.width == outside.width && inside.height == outside.height
    requires outside.InBounds(x, y)
    ensures 0 <= Flat(x, y, outside.width) < outside.points.Length
    ensures d == CellDistance(outside.points[..], inside.points[..], root, Flat(x, y, outside.width))
  {
    FlatInBounds(x, y, outside.width, outside.height);
    var outsideDistance := HalfPixelCorrected(root(SquaredDistance(outside.Get(x, y))));
    var insideDistance := HalfPixelCorrected(root(SquaredDistance(inside.Get(x, y))));
    d := outsideDistance - insideDistance;
  }

  /** The loop of Create that turns the two propagated grids into the pre-blur
      signed distances: the root of each squared distance, less half a pixel
      when positive, outside minus inside. */
  method CombineDistances(outside: Grid, inside: Grid, root: nat -> real, distances: array<real>)
    requires outside.Valid() && inside.Valid() && RootLike(root)
    requires inside.width == outside.width && inside.height == outside.height
    requires distances.Length == outside.width * outside.height
    modifies distances
    ensures CombinedPrefix(outside.points[..], inside.points[..], root, distances[..], distances.Length)
  {
    var width, height := outside.width, outside.height;
    ghost var o, n := outside.points[..], inside.points[..];
    var y := 0;
    while y < height
      invariant 0 <= y <= height
      invariant CombinedPrefix(o, n, root, distances[..], Flat(0, y, width))
    {
      var x := 0;
      while x < width
        invariant 0 <= x <= width
        invariant CombinedPrefix(o, n, root, distances[..], Flat(x, y, width))
      {
        FlatInBounds(x, y, width, height);
        var k := x + y * width;
        var d := PixelDistance(outside, inside, root, x, y);
        ghost var before := distances[..];
        distances[k] := d;
        CombinedStep(o, n, root, before, distances[..], k);
        x := x + 1;
      }
      FlatNextRow(y, width, height);
      y := y + 1;
    }
    FlatNextRow(y, width, height);
  }

  /** The two offset loops of the blur for pixel (x, y), then the factor 1/9. */
  method BlurSample(copy: seq<real>, width: nat, height: nat, x: int, y: int) returns (sum: real)
    requires |copy| == width * height && 0 <= x < width && 0 <= y < height
    ensures sum == BlurAt(copy, width, height, x, y)
  {
    sum := 0.0;
    var yo := -1;
    while yo <= 1
      invariant -1 <= yo <= 2
      invariant sum == BlurSum(copy, width, height, x, y, yo + 1)
    {
      var row := BlurRow(copy, width, height, x, y, yo);
      sum := sum + row;
      yo := yo + 1;
    }
    sum := sum * (1.0 / 9.0);
  }

  /** The inner offset loop of the blur: the three weighted samples of row yo. */
  method BlurRow(copy: seq<real>, width: nat, height: nat, x: int, y: int, yo: int) returns (sum: real)
    requires |copy| == width * height && 0 <= x < width && 0 <= y < height && -1 <= yo <= 1
    ensures sum == RowSum(copy, width, height, x, y, yo, 3)
  {
    sum := 0.0;
    var xo := -1;
    while xo <= 1
      invariant -1 <= xo <= 2
      invariant sum == RowSum(copy, width, height, x, y, yo, xo + 1)
    {
      var cx := Clamp(x + xo, 0, width - 1);
      var cy := Clamp(y + yo, 0, height - 1);
      FlatInBounds(cx, cy, width, height);
      var v := copy[cx + cy * width];
      assert v == Sample(copy, width, height, x, y, xo, yo);
      sum := sum + Weight(xo, yo) * v;
      xo := xo + 1;
    }
  }

  /** The blur loop of Create: every pixel becomes the blurred value of `copy`,
      and the smallest and largest results are tracked starting from the float
      limits. */
  method BlurPass(copy: seq<real>, width: nat, height: nat, distances: array<real>)
    returns (minDistance: real, maxDistance: real)
    requires |copy| == width * height && distances.Length == width * height
    modifies distances
    ensures forall x, y | 0 <= x < width && 0 <= y < height && 0 <= Flat(x, y, width) < distances.Length ::
      distances[Flat(x, y, width)] == BlurAt(copy, width, height, x, y)
    ensures forall i :: 0 <= i < distances.Length ==> minDistance <= distances[i] <= maxDistance
    ensures minDistance <= FloatMax && FloatLowest <= maxDistance
    ensures minDistance == FloatMax || exists i :: 0 <= i < distances.Length && distances[i] == minDistance
    ensures maxDistance == FloatLowest || exists i :: 0 <= i < distances.Length && distances[i] == maxDistance
  {
    minDistance := FloatMax;
    maxDistance := FloatLowest;
    var y := 0;
    while y < height
      invariant 0 <= y <= height
      invariant BlurredPrefix(copy, width, height, distances[..], Flat(0, y, width))
      invariant MinMaxOf(distances[..], Flat(0, y, width), minDistance, maxDistance)
    {
      var x := 0;
      while x < width
        invariant 0 <= x <= width
        invariant BlurredPrefix(copy, width, height, distances[..], Flat(x, y, width))
        invariant MinMaxOf(distances[..], Flat(x, y, width), minDistance, maxDistance)
      {
        minDistance, maxDistance := BlurNext(copy, width, height, distances, x, y, minDistance, maxDistance);
        x := x + 1;
      }
      FlatNextRow(y, width, height);
      y := y + 1;
    }
    FlatNextRow(y, width, height);
    forall x, y | 0 <= x < width && 0 <= y < height && 0 <= Flat(x, y, width) < distances.Length
      ensures distances[Flat(x, y, width)] == BlurAt(copy, width, height, x, y)
    {
      assert distances[..][Flat(x, y, width)] == distances[Flat(x, y, width)];
    }
  }

  /** One iteration of the blur loop: blur pixel (x, y) and fold it into the
      running minimum and maximum. */
  method BlurNext(copy: seq<real>, width: nat, height: nat, distances: array<real>, x: int, y: int,
                  minBefore: real, maxBefore: real) returns (minDistance: real, maxDistance: real)
    requires |copy| == width * height && distances.Length == width * height
    requires 0 <= x < width && 0 <= y < height
    requires BlurredPrefix(copy, width, height, distances[..], Flat(x, y, width))
    requires MinMaxOf(distances[..], Flat(x, y, width), minBefore, maxBefore)
    modifies distances
    ensures BlurredPrefix(copy, width, height, distances[..], Flat(x, y, width) + 1)
    ensures MinMaxOf(distances[..], Flat(x, y, width) + 1, minDistance, maxDistance)
  {
    FlatInBounds(x, y, width, height);
    var sum := BlurSample(copy, width, height, x, y);
    ghost var before := distances[..];
    distances[x + y * width] := sum;
    BlurredStep(copy, width, height, before, distances[..], x, y);
    MinMaxStep(before, distances[..], x + y * width, minBefore, maxBefore);
    maxDistance := Max(sum, maxBefore);
    minDistance := Min(sum, minBefore);
  }

  /** Cells before flat index n hold their blurred value. */
  ghost predicate BlurredPrefix(copy: seq<real>, width: nat, height: nat, d: seq<real>, n: int)
    requires |copy| == width * height
  {
    forall x, y | 0 <= x < width && 0 <= y < height && 0 <= Flat(x, y, width) < n && Flat(x, y, width) < |d| ::
      d[Flat(x, y, width)] == BlurAt(copy, width, height, x, y)
  }

  /** `lo` and `hi` bound the first n values of d, starting from the float
      limits, and each is a limit or one of those values. */
  ghost predicate MinMaxOf(d: seq<real>, n: int, lo: real, hi: real) {
    0 <= n <= |d| &&
    (forall i :: 0 <= i < n ==> lo <= d[i] <= hi) &&
    lo <= FloatMax && FloatLowest <= hi &&
    (lo == FloatMax || exists i :: 0 <= i < n && d[i] == lo) &&
    (hi == FloatLowest || exists i :: 0 <= i < n && d[i] == hi)
  }

  lemma MinMaxStep(before: seq<real>, after: seq<real>, n: int, lo: real, hi: real)
    requires MinMaxOf(before, n, lo, hi) && n < |before|
    requires |after| == |before| && after[..n] == before[..n]
    ensures MinMaxOf(after, n + 1, Min(after[n], lo), Max(after[n], hi))
  {
    assert forall i :: 0 <= i < n ==> after[i] == before[i];
  }

  lemma BlurredStep(copy: seq<real>, width: nat, height: nat, before: seq<real>, after: seq<real>,
                    x: int, y: int)
    requires |copy| == width * height && 0 <= x < width && 0 <= y < height
    requires |before| == width * height
    requires BlurredPrefix(copy, width, height, before, Flat(x, y, width))
    requires 0 <= Flat(x, y, width) < |before|
    requires after == before[Flat(x, y, width) := BlurAt(copy, width, height, x, y)]
    ensures BlurredPrefix(copy, width, height, after, Flat(x, y, width) + 1)
  {
    forall x', y' | 0 <= x' < width && 0 <= y' < height && 0 <= Flat(x', y', width) < Flat(x, y, width) + 1
      ensures after[Flat(x', y', width)] == BlurAt(copy, width, height, x', y')
    {
      if Flat(x', y', width) == Flat(x, y, width) {
        FlatInjective(x, y, x', y', width);
      }
    }
  }

  /** After propagation every seed still holds offset (0, 0): material
      pixels in the outside grid, empty pixels in the inside grid. */
  ghost predicate SeedsKept(image: seq<U8>, outside: seq<Point>, inside: seq<Point>) {
    |outside| == |image| && |inside| == |image| &&
    forall i :: 0 <= i < |image| ==>
      (image[i] != MaterialEmptySpace ==> outside[i] == SeedPoint) &&
      (image[i] == MaterialEmptySpace ==> inside[i] == SeedPoint)
  }

  /** The grids' initial contents, as Create seeds them. */
  function OutsideSeeds(image: seq<U8>): seq<Point> {
    seq(|image|, i requires 0 <= i < |image| => OutsideSeed(image[i]))
  }

  function InsideSeeds(image: seq<U8>): seq<Point> {
    seq(|image|, i requires 0 <= i < |image| => InsideSeed(image[i]))
  }

  /** Before the blur, material lies at distance <= 0 and empty space at
      distance >= 0: a seed keeps offset (0, 0), so its own grid contributes 0. */
  lemma PreBlurSign(image: seq<U8>, outside: seq<Point>, inside: seq<Point>, root: nat -> real, i: int)
    requires RootLike(root) && SeedsKept(image, outside, inside) && 0 <= i < |image|
    ensures image[i] != MaterialEmptySpace ==> CellDistance(outside, inside, root, i) <= 0.0
    ensures image[i] == MaterialEmptySpace ==> CellDistance(outside, inside, root, i) >= 0.0
  {
    if image[i] != MaterialEmptySpace {
      SignAtSeed(outside, inside, root, i);
    } else {
      SignAtSeed(outside, inside, root, i);
    }
  }

  /** A cell that is a seed of the outside grid is at distance <= 0, one that
      is a seed of the inside grid at distance >= 0. */
  lemma SignAtSeed(outside: seq<Point>, inside: seq<Point>, root: nat -> real, i: int)
    requires RootLike(root) && 0 <= i < |outside| && i < |inside|
    ensures outside[i] == SeedPoint ==> CellDistance(outside, inside, root, i) <= 0.0
    ensures inside[i] == SeedPoint ==> CellDistance(outside, inside, root, i) >= 0.0
  {
    ZeroOnlyAtSeed(outside[i]);
    ZeroOnlyAtSeed(inside[i]);
    SignedDistanceSign(SquaredDistance(outside[i]), SquaredDistance(inside[i]), root);
  }

  /** A seed cell keeps offset (0, 0): nothing is strictly closer. */
  lemma SeedKept(p: Point)
    requires Improves(SeedPoint, p)
    ensures p == SeedPoint
  {
    assert SquaredDistance(SeedPoint) == 0;
  }

  /** While neither side exceeds 9998 pixels, the sentinel's phantom region
      lies beyond the grid, so a pixel that is not a seed of a grid ends at a
      positive squared distance there; the pre-blur distance is then at most
      -0.5 on material and at least 0.5 on empty space. */
  lemma PreBlurStrictSign(image: seq<U8>, width: nat, height: nat, outside: seq<Point>, inside: seq<Point>,
                          root: nat -> real, x: int, y: int)
    requires RootLike(root) && SeedsKept(image, outside, inside) && |image| == width * height
    requires width <= Sentinel - 1 && height <= Sentinel - 1 && 0 <= x < width && 0 <= y < height
    requires AllLead(OutsideSeeds(image), width, height, outside)
    requires AllLead(InsideSeeds(image), width, height, inside)
    ensures 0 <= Flat(x, y, width) < |image|
    ensures image[Flat(x, y, width)] != MaterialEmptySpace ==> CellDistance(outside, inside, root, Flat(x, y, width)) <= -0.5
    ensures image[Flat(x, y, width)] == MaterialEmptySpace ==> CellDistance(outside, inside, root, Flat(x, y, width)) >= 0.5
  {
    FlatInBounds(x, y, width, height);
    var i := Flat(x, y, width);
    if image[i] != MaterialEmptySpace {
      StaysPositive(InsideSeeds(image), width, height, inside, x, y);
    } else {
      StaysPositive(OutsideSeeds(image), width, height, outside, x, y);
    }
    StrictSignAtSeed(outside, inside, root, i);
  }

  /** A seed of one grid that is at a positive squared distance in the other
      is at least half a pixel away from 0, on its own side. */
  lemma StrictSignAtSeed(outside: seq<Point>, inside: seq<Point>, root: nat -> real, i: int)
    requires RootLike(root) && 0 <= i < |outside| && i < |inside|
    ensures outside[i] == SeedPoint && SquaredDistance(inside[i]) > 0 ==> CellDistance(outside, inside, root, i) <= -0.5
    ensures inside[i] == SeedPoint && SquaredDistance(outside[i]) > 0 ==> CellDistance(outside, inside, root, i) >= 0.5
  {
    ZeroOnlyAtSeed(outside[i]);
    ZeroOnlyAtSeed(inside[i]);
    SignedDistanceSign(SquaredDistance(outside[i]), SquaredDistance(inside[i]), root);
  }

  /** In a propagated grid a cell that was not a seed of `init` is at a
      positive squared distance. */
  lemma StaysPositive(init: seq<Point>, width: nat, height: nat, s: seq<Point>, x: int, y: int)
    requires width <= Sentinel - 1 && height <= Sentinel - 1 && 0 <= x < width && 0 <= y < height
    requires AllLead(init, width, height, s) && |init| == |s|
    requires 0 <= Flat(x, y, width) < |s| ==> init[Flat(x, y, width)] != SeedPoint
    ensures 0 <= Flat(x, y, width) < |s| && SquaredDistance(s[Flat(x, y, width)]) > 0
  {
    FlatInBounds(x, y, width, height);
    NonSeedIsPositive(init, width, height, x, y, s[Flat(x, y, width)]);
  }

  /** A cell that was not a seed ends at a positive squared distance. */
  lemma NonSeedIsPositive(init: seq<Point>, width: nat, height: nat, x: int, y: int, p: Point)
    requires width <= Sentinel - 1 && height <= Sentinel - 1 && 0 <= x < width && 0 <= y < height
    requires LeadsToSeed(init, width, height, x, y, p) && !IsSeed(init, width, height, x, y)
    ensures SquaredDistance(p) > 0
  {
    ZeroOnlyAtSeed(p);
    if p == SeedPoint {
      ZeroOnlyAtSeeds(init, width, height, x, y, p);
    }
  }

  /** Pixel (x, y) and its neighbour at offset (ox, oy) lie on opposite
      sides of the material boundary, and the grid in which (x, y) is not a
      seed holds squared distance 1 or 2 there. */
  ghost predicate CrossingNear(image: seq<U8>, width: nat, height: nat, outside: seq<Point>, inside: seq<Point>,
                               x: int, y: int, ox: int, oy: int) {
    0 <= x < width && 0 <= y < height && 0 <= x + ox < width && 0 <= y + oy < height &&
    0 <= Flat(x, y, width) < |image| && 0 <= Flat(x + ox, y + oy, width) < |image| &&
    |outside| == |image| && |inside| == |image| ==>
      (image[Flat(x, y, width)] == MaterialEmptySpace && image[Flat(x + ox, y + oy, width)] != MaterialEmptySpace ==>
         0 < SquaredDistance(outside[Flat(x, y, width)]) <= 2) &&
      (image[Flat(x, y, width)] != MaterialEmptySpace && image[Flat(x + ox, y + oy, width)] == MaterialEmptySpace ==>
         0 < SquaredDistance(inside[Flat(x, y, width)]) <= 2)
  }

  /** The pre-blur distance of pixel (x, y) is within one pixel of the
      boundary when its neighbour at offset (ox, oy) is across it: in
      [0.5, 1] on empty space, in [-1, -0.5] on material. */
  ghost predicate CrossingWithinPixel(image: seq<U8>, width: nat, height: nat, d: seq<real>,
                                      x: int, y: int, ox: int, oy: int) {
    0 <= x < width && 0 <= y < height && 0 <= x + ox < width && 0 <= y + oy < height &&
    0 <= Flat(x, y, width) < |image| && 0 <= Flat(x + ox, y + oy, width) < |image| && |d| == |image| ==>
      (image[Flat(x, y, width)] == MaterialEmptySpace && image[Flat(x + ox, y + oy, width)] != MaterialEmptySpace ==>
         0.5 <= d[Flat(x, y, width)] <= 1.0) &&
      (image[Flat(x, y, width)] != MaterialEmptySpace && image[Flat(x + ox, y + oy, width)] == MaterialEmptySpace ==>
         -1.0 <= d[Flat(x, y, width)] <= -0.5)
  }

  /** Every pixel with a side or corner neighbour across the material
      boundary lies within one pixel of the boundary. */
  ghost predicate BoundaryWithinPixel(image: seq<U8>, width: nat, height: nat, d: seq<real>) {
    forall x, y, ox, oy | IsNeighbourOffset(ox, oy) && (ox != 0 || oy != 0) ::
      CrossingWithinPixel(image, width, height, d, x, y, ox, oy)
  }

  /** From the propagated grids: a pixel next to the boundary is at squared
      distance 1 or 2 in the grid it is not a seed of. */
  lemma CrossingsNear(image: seq<U8>, width: nat, height: nat, outside: seq<Point>, inside: seq<Point>)
    requires |image| == width * height && width <= Sentinel - 1 && height <= Sentinel - 1
    requires AllLead(OutsideSeeds(image), width, height, outside)
    requires AllLead(InsideSeeds(image), width, height, inside)
    requires NeighboursNear(OutsideSeeds(image), width, height, outside)
    requires NeighboursNear(InsideSeeds(image), width, height, inside)
    ensures forall x, y, ox, oy | IsNeighbourOffset(ox, oy) && (ox != 0 || oy != 0) ::
      CrossingNear(image, width, height, outside, inside, x, y, ox, oy)
  {
    forall x, y, ox, oy | IsNeighbourOffset(ox, oy) && (ox != 0 || oy != 0)
      ensures CrossingNear(image, width, height, outside, inside, x, y, ox, oy)
    {
      CrossingNearIn(image, true, OutsideSeeds(image), width, height, outside, x, y, ox, oy);
      CrossingNearIn(image, false, InsideSeeds(image), width, height, inside, x, y, ox, oy);
    }
  }

  /** CrossingsNear for one pixel, one neighbour and one of the two grids. */
  lemma CrossingNearIn(image: seq<U8>, outsideGrid: bool, init: seq<Point>, width: nat, height: nat, s: seq<Point>,
                       x: int, y: int, ox: int, oy: int)
    requires |image| == width * height && init == (if outsideGrid then OutsideSeeds(image) else InsideSeeds(image))
    requires width <= Sentinel - 1 && height <= Sentinel - 1
    requires AllLead(init, width, height, s) && NeighboursNear(init, width, height, s)
    requires IsNeighbourOffset(ox, oy) && (ox != 0 || oy != 0)
    ensures 0 <= x < width && 0 <= y < height && 0 <= x + ox < width && 0 <= y + oy < height ==>
      0 <= Flat(x, y, width) < |image| && 0 <= Flat(x + ox, y + oy, width) < |image| &&
      ((image[Flat(x, y, width)] == MaterialEmptySpace) == outsideGrid &&
       (image[Flat(x + ox, y + oy, width)] == MaterialEmptySpace) != outsideGrid ==>
         0 < SquaredDistance(s[Flat(x, y, width)]) <= 2)
  {
    if 0 <= x < width && 0 <= y < height && 0 <= x + ox < width && 0 <= y + oy < height {
      FlatInBounds(x, y, width, height);
      FlatInBounds(x + ox, y + oy, width, height);
      var i, j := Flat(x, y, width), Flat(x + ox, y + oy, width);
      if (image[i] == MaterialEmptySpace) == outsideGrid && (image[j] == MaterialEmptySpace) != outsideGrid {
        SeedAcross(image, outsideGrid, init, width, height, s, x, y, ox, oy);
      }
    }
  }

  /** With the 9998 bound met, the pre-blur field puts every pixel next to
      the material boundary within one pixel of it. */
  lemma BoundaryDistance(image: seq<U8>, width: nat, height: nat, outside: seq<Point>, inside: seq<Point>,
                         root: nat -> real, d: seq<real>)
    requires RootLike(root) && SeedsKept(image, outside, inside)
    requires CombinedPrefix(outside, inside, root, d, |d|)
    requires forall x, y, ox, oy | IsNeighbourOffset(ox, oy) && (ox != 0 || oy != 0) ::
      CrossingNear(image, width, height, outside, inside, x, y, ox, oy)
    ensures BoundaryWithinPixel(image, width, height, d)
  {
    forall x, y, ox, oy | IsNeighbourOffset(ox, oy) && (ox != 0 || oy != 0)
      ensures CrossingWithinPixel(image, width, height, d, x, y, ox, oy)
    {
      assert CrossingNear(image, width, height, outside, inside, x, y, ox, oy);
      if 0 <= x < width && 0 <= y < height && 0 <= x + ox < width && 0 <= y + oy < height &&
         0 <= Flat(x, y, width) < |image| && 0 <= Flat(x + ox, y + oy, width) < |image| {
        var i, j := Flat(x, y, width), Flat(x + ox, y + oy, width);
        if image[i] == MaterialEmptySpace && image[j] != MaterialEmptySpace {
          EmptyBoundaryCell(image, outside, inside, root, i);
        } else if image[i] != MaterialEmptySpace && image[j] == MaterialEmptySpace {
          MaterialBoundaryCell(image, outside, inside, root, i);
        }
      }
    }
  }

  /** An empty pixel at squared distance 1 or 2 from material. */
  lemma EmptyBoundaryCell(image: seq<U8>, outside: seq<Point>, inside: seq<Point>, root: nat -> real, i: int)
    requires RootLike(root) && SeedsKept(image, outside, inside) && 0 <= i < |image|
    requires image[i] == MaterialEmptySpace && 0 < SquaredDistance(outside[i]) <= 2
    ensures 0.5 <= CellDistance(outside, inside, root, i) <= 1.0
  {
    BoundaryCell(outside, inside, root, i);
  }

  /** A material pixel at squared distance 1 or 2 from empty space. */
  lemma MaterialBoundaryCell(image: seq<U8>, outside: seq<Point>, inside: seq<Point>, root: nat -> real, i: int)
    requires RootLike(root) && SeedsKept(image, outside, inside) && 0 <= i < |image|
    requires image[i] != MaterialEmptySpace && 0 < SquaredDistance(inside[i]) <= 2
    ensures -1.0 <= CellDistance(outside, inside, root, i) <= -0.5
  {
    BoundaryCell(outside, inside, root, i);
  }

  /** Across the material boundary the neighbour is a seed of the grid the
      pixel itself is not a seed of, so that grid holds 1 or 2 there. */
  lemma SeedAcross(image: seq<U8>, outsideGrid: bool, init: seq<Point>, width: nat, height: nat, s: seq<Point>,
                   x: int, y: int, ox: int, oy: int)
    requires |image| == width * height && init == (if outsideGrid then OutsideSeeds(image) else InsideSeeds(image))
    requires width <= Sentinel - 1 && height <= Sentinel - 1 && |s| == width * height
    requires AllLead(init, width, height, s) && NeighboursNear(init, width, height, s)
    requires IsNeighbourOffset(ox, oy) && (ox != 0 || oy != 0)
    requires 0 <= x < width && 0 <= y < height && 0 <= x + ox < width && 0 <= y + oy < height
    requires 0 <= Flat(x, y, width) < |image| && 0 <= Flat(x + ox, y + oy, width) < |image|
    requires (image[Flat(x, y, width)] == MaterialEmptySpace) != (image[Flat(x + ox, y + oy, width)] == MaterialEmptySpace)
    requires outsideGrid <==> image[Flat(x, y, width)] == MaterialEmptySpace
    ensures 0 < SquaredDistance(s[Flat(x, y, width)]) <= 2
  {
    var i, j := Flat(x, y, width), Flat(x + ox, y + oy, width);
    SeededInExactlyOneGrid(image[i]);
    SeededInExactlyOneGrid(image[j]);
    assert init[i] != SeedPoint && init[j] == SeedPoint;
    NextToSeed(init, width, height, s, x, y, ox, oy);
  }

  /** A non-seed cell with a seed among its neighbours is at squared
      distance 1 or 2 once propagated. */
  lemma NextToSeed(init: seq<Point>, width: nat, height: nat, s: seq<Point>, x: int, y: int, ox: int, oy: int)
    requires width <= Sentinel - 1 && height <= Sentinel - 1 && |init| == |s| == width * height
    requires AllLead(init, width, height, s) && NeighboursNear(init, width, height, s)
    requires IsNeighbourOffset(ox, oy) && (ox != 0 || oy != 0)
    requires 0 <= x < width && 0 <= y < height
    requires IsSeed(init, width, height, x + ox, y + oy) && !IsSeed(init, width, height, x, y)
    ensures 0 <= Flat(x, y, width) < |s| && 0 < SquaredDistance(s[Flat(x, y, width)]) <= 2
  {
    FlatInBounds(x, y, width, height);
    assert SeedNear(init, width, height, s, x, y, ox, oy);
    StaysPositive(init, width, height, s, x, y);
  }

  /** A cell that is a seed of one grid and at squared distance 1 or 2 in
      the other is between half a pixel and one pixel from 0, on its own
      side. */
  lemma BoundaryCell(outside: seq<Point>, inside: seq<Point>, root: nat -> real, i: int)
    requires RootLike(root) && 0 <= i < |outside| && i < |inside|
    ensures inside[i] == SeedPoint && 0 < SquaredDistance(outside[i]) <= 2 ==>
      0.5 <= CellDistance(outside, inside, root, i) <= 1.0
    ensures outside[i] == SeedPoint && 0 < SquaredDistance(inside[i]) <= 2 ==>
      -1.0 <= CellDistance(outside, inside, root, i) <= -0.5
  {
    var o, n := SquaredDistance(outside[i]), SquaredDistance(inside[i]);
    assert root(1) == 1.0 && root(2) <= 1.5;
    assert 0 < o <= 2 ==> root(o) >= 1.0;
    assert 0 < n <= 2 ==> root(n) >= 1.0;
  }

  /** Material pixels are at distance <= 0, empty pixels at distance >= 0. */
  ghost predicate SignsFollowMaterial(image: seq<U8>, d: seq<real>) {
    |d| == |image| &&
    forall i :: 0 <= i < |image| ==>
      (image[i] != MaterialEmptySpace ==> d[i] <= 0.0) && (image[i] == MaterialEmptySpace ==> d[i] >= 0.0)
  }

  /** Material pixels are at distance <= -0.5, empty pixels at distance >= 0.5. */
  ghost predicate StrictSigns(image: seq<U8>, width: nat, height: nat, d: seq<real>) {
    |d| == |image| &&
    forall x, y | 0 <= x < width && 0 <= y < height && 0 <= Flat(x, y, width) < |image| ::
      (image[Flat(x, y, width)] != MaterialEmptySpace ==> d[Flat(x, y, width)] <= -0.5) &&
      (image[Flat(x, y, width)] == MaterialEmptySpace ==> d[Flat(x, y, width)] >= 0.5)
  }

  /** The pre-blur field has the signs of the material raster. */
  lemma FieldSigns(image: seq<U8>, width: nat, height: nat, outside: seq<Point>, inside: seq<Point>,
                   root: nat -> real, d: seq<real>)
    requires RootLike(root) && |image| == width * height && SeedsKept(image, outside, inside)
    requires AllLead(OutsideSeeds(image), width, height, outside)
    requires AllLead(InsideSeeds(image), width, height, inside)
    requires CombinedPrefix(outside, inside, root, d, |d|)
    ensures SignsFollowMaterial(image, d)
    ensures width <= Sentinel - 1 && height <= Sentinel - 1 ==> StrictSigns(image, width, height, d)
  {
    WeakFieldSigns(image, outside, inside, root, d);
    if width <= Sentinel - 1 && height <= Sentinel - 1 {
      StrictFieldSigns(image, width, height, outside, inside, root, d);
    }
  }

  lemma WeakFieldSigns(image: seq<U8>, outside: seq<Point>, inside: seq<Point>, root: nat -> real, d: seq<real>)
    requires RootLike(root) && SeedsKept(image, outside, inside)
    requires CombinedPrefix(outside, inside, root, d, |d|)
    ensures SignsFollowMaterial(image, d)
  {
    forall i | 0 <= i < |image|
      ensures image[i] != MaterialEmptySpace ==> d[i] <= 0.0
      ensures image[i] == MaterialEmptySpace ==> d[i] >= 0.0
    {
      PreBlurSign(image, outside, inside, root, i);
    }
  }

  lemma StrictFieldSigns(image: seq<U8>, width: nat, height: nat, outside: seq<Point>, inside: seq<Point>,
                         root: nat -> real, d: seq<real>)
    requires RootLike(root) && |image| == width * height && SeedsKept(image, outside, inside)
    requires width <= Sentinel - 1 && height <= Sentinel - 1
    requires AllLead(OutsideSeeds(image), width, height, outside)
    requires AllLead(InsideSeeds(image), width, height, inside)
    requires CombinedPrefix(outside, inside, root, d, |d|)
    ensures StrictSigns(image, width, height, d)
  {
    forall x, y | 0 <= x < width && 0 <= y < height && 0 <= Flat(x, y, width) < |image|
      ensures image[Flat(x, y, width)] != MaterialEmptySpace ==> d[Flat(x, y, width)] <= -0.5
      ensures image[Flat(x, y, width)] == MaterialEmptySpace ==> d[Flat(x, y, width)] >= 0.5
    {
      PreBlurStrictSign(image, width, height, outside, inside, root, x, y);
    }
  }

  /** The part of Create before the blur: seed both grids, propagate them and
      combine them into a fresh array of signed distances. */
  method PreBlurField(image: seq<U8>, width: nat, height: nat, root: nat -> real)
    returns (field: array<real>, ghost outside: seq<Point>, ghost inside: seq<Point>)
    requires |image| == width * height && RootLike(root)
    ensures fresh(field) && field.Length == width * height
    ensures SeedsKept(image, outside, inside)
    ensures AllLead(OutsideSeeds(image), width, height, outside)
    ensures AllLead(InsideSeeds(image), width, height, inside)
    ensures NeighboursNear(OutsideSeeds(image), width, height, outside)
    ensures NeighboursNear(InsideSeeds(image), width, height, inside)
    ensures CombinedPrefix(outside, inside, root, field[..], field.Length)
  {
    var outsideGrid, insideGrid := SeedGrids(image, width, height);
    assert outsideGrid.points[..] == OutsideSeeds(image);
    assert insideGrid.points[..] == InsideSeeds(image);
    outsideGrid.GenerateSdf();
    insideGrid.GenerateSdf();
    outside, inside := outsideGrid.points[..], insideGrid.points[..];
    forall i | 0 <= i < |image|
      ensures image[i] != MaterialEmptySpace ==> outside[i] == SeedPoint
      ensures image[i] == MaterialEmptySpace ==> inside[i] == SeedPoint
    {
      if image[i] != MaterialEmptySpace {
        SeedKept(outside[i]);
      } else {
        SeedKept(inside[i]);
      }
    }
    field := new real[width * height];
    CombineDistances(outsideGrid, insideGrid, root, field);
  }

  /** ShapeSdf: the blurred signed distance field of a raster, with its
      smallest and largest value. The ghost fields keep the propagated grids
      and the pre-blur distances the field was made from. */
  class ShapeSdf {
    var width: nat
    var height: nat
    var distances: array<real>
    var minDistance: real
    var maxDistance: real
    ghost var outsidePoints: seq<Point>
    ghost var insidePoints: seq<Point>
    ghost var unblurred: seq<real>

    /** Every stored distance is the blur of `unblurred` at its pixel, and the
        extremes bound the field. */
    ghost predicate Valid()
      reads this, distances
    {
      distances.Length == width * height && |unblurred| == width * height &&
      BlurredPrefix(unblurred, width, height, distances[..], distances.Length) &&
      MinMaxOf(distances[..], distances.Length, minDistance, maxDistance)
    }

    /** An empty field, as before the first Create. */
    constructor ()
      ensures Valid() && width == 0 && height == 0
    {
      width, height := 0, 0;
      distances := new real[0];
      minDistance, maxDistance := FloatMax, FloatLowest;
      outsidePoints, insidePoints, unblurred := [], [], [];
    }

    /** ShapeSdf::Create: seed, propagate, combine into signed distances and
        blur. */
    method Create(image: seq<U8>, width: nat, height: nat, root: nat -> real)
      requires |image| == width * height && RootLike(root)
      modifies this
      ensures Valid() && fresh(distances)
      ensures this.width == width && this.height == height
      ensures SeedsKept(image, outsidePoints, insidePoints)
      ensures AllLead(OutsideSeeds(image), width, height, outsidePoints)
      ensures AllLead(InsideSeeds(image), width, height, insidePoints)
      ensures NeighboursNear(OutsideSeeds(image), width, height, outsidePoints)
      ensures NeighboursNear(InsideSeeds(image), width, height, insidePoints)
      ensures CombinedPrefix(outsidePoints, insidePoints, root, unblurred, |unblurred|)
      ensures SignsFollowMaterial(image, unblurred)
      ensures width <= Sentinel - 1 && height <= Sentinel - 1 ==> StrictSigns(image, width, height, unblurred)
      ensures width <= Sentinel - 1 && height <= Sentinel - 1 ==> BoundaryWithinPixel(image, width, height, unblurred)
    {
      var field;
      field, outsidePoints, insidePoints := PreBlurField(image, width, height, root);
      var copy := field[..];
      var lo, hi := BlurPass(copy, width, height, field);
      this.width, this.height := width, height;
      distances, minDistance, maxDistance, unblurred := field, lo, hi, copy;
      FieldSigns(image, width, height, outsidePoints, insidePoints, root, unblurred);
      if width <= Sentinel - 1 && height <= Sentinel - 1 {
        CrossingsNear(image, width, height, outsidePoints, insidePoints);
        BoundaryDistance(image, width, height, outsidePoints, insidePoints, root, unblurred);
      }
    }

    /** ShapeSdf::GetDistance: the stored distance of an in-range pixel, which
        is the blurred pre-blur distance there and lies between the extremes. */
    function GetDistance(x: int, y: int): (r: real)
      reads this, distances
      requires Valid() && 0 <= x < width && 0 <= y < height
      ensures r == BlurAt(unblurred, width, height, x, y)
      ensures minDistance <= r <= maxDistance
    {
      FlatInBounds(x, y, width, height);
      assert distances[..][Flat(x, y, width)] == distances[x + y * width];
      distances[x + y * width]
    }
  }
}
