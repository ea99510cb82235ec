/** The nearest-seed propagation grid local to ShapeSdf::Create
    (engine/shape/Shape.cpp): the two-pass, eight-neighbour sequential
    Euclidean distance transform. Each cell holds the integer offset from the
    cell to the nearest seed found so far. */
module SdfGrid {
  import opened Shapes

  /** The component value of the "no seed found yet" offset. */
  const Sentinel: int := 9999

  /** A grid cell: the offset `delta` from the cell to its nearest seed. */
  datatype Point = Point(dx: int, dy: int)

  /** A default-constructed Point: delta (9999, 9999). */
  const DefaultPoint: Point := Point(Sentinel, Sentinel)

  /** The point written into a seed cell: delta (0, 0). */
  const SeedPoint: Point := Point(0, 0)

  function SquaredDistance(p: Point): (r: int)
    ensures r >= 0
  {
    p.dx * p.dx + p.dy * p.dy
  }

  /** Only the seed offset is at distance zero. */
  lemma ZeroOnlyAtSeed(p: Point)
    ensures SquaredDistance(p) == 0 <==> p == SeedPoint
  {
    SquaresNonNegative(p.dx, p.dy);
  }

  lemma SquaresNonNegative(a: int, b: int)
    ensures a * a >= 0 && b * b >= 0
    ensures a * a + b * b == 0 <==> a == 0 && b == 0
  {
    SquareAtLeastAbs(a);
    SquareAtLeastAbs(b);
  }

  lemma SquareAtLeastAbs(a: int)
    ensures a * a >= (if a < 0 then -a else a)
  {
    var m := if a < 0 then -a else a;
    assert a * a == m * m;
    if m > 0 {
      MulMonotone(1, m, m);
    }
  }

  /** A neighbour's point seen from the current cell: `other.delta += offset`. */
  function Shifted(p: Point, ox: int, oy: int): Point {
    Point(p.dx + ox, p.dy + oy)
  }

  /** `after` is no farther than `before`, and a seed cell (squared distance 0)
      is left exactly as it was. */
  predicate Improves(before: Point, after: Point) {
    SquaredDistance(after) <= SquaredDistance(before) &&
    (SquaredDistance(before) == 0 ==> after == before)
  }

  lemma ImprovesTransitive(a: Point, b: Point, c: Point)
    requires Improves(a, b) && Improves(b, c)
    ensures Improves(a, c)
  {
  }

  /** The neighbour offsets that Compare is called with: one step in each axis. */
  predicate IsNeighbourOffset(ox: int, oy: int) {
    -1 <= ox <= 1 && -1 <= oy <= 1
  }

  /** Where the sentinel offset leads: the point (9999, 9999) away from a cell
      of the grid or of the one-cell border around it (out-of-range reads of
      Grid::Get return the sentinel too). */
  predicate IsPhantom(width: int, height: int, tx: int, ty: int) {
    Sentinel - 1 <= tx <= width + Sentinel && Sentinel - 1 <= ty <= height + Sentinel
  }

  /** Cell (tx, ty) is in range and held a seed in the grid `init`. */
  predicate IsSeed(init: seq<Point>, width: nat, height: nat, tx: int, ty: int) {
    0 <= tx < width && 0 <= ty < height && 0 <= Flat(tx, ty, width) < |init| &&
    init[Flat(tx, ty, width)] == SeedPoint
  }

  /** The offset stored in cell (x, y) leads to a seed of `init`, or into the
      sentinel's phantom region. */
  predicate LeadsToSeed(init: seq<Point>, width: nat, height: nat, x: int, y: int, p: Point) {
    IsSeed(init, width, height, x + p.dx, y + p.dy) ||
    IsPhantom(width, height, x + p.dx, y + p.dy)
  }

  /** When cell (x, y) has a seed of `init` as its neighbour at offset
      (ox, oy), its squared distance is at most that of the step to the
      neighbour. */
  predicate SeedNear(init: seq<Point>, width: nat, height: nat, s: seq<Point>, x: int, y: int, ox: int, oy: int) {
    0 <= x < width && 0 <= y < height && 0 <= Flat(x, y, width) < |s| &&
    IsSeed(init, width, height, x + ox, y + oy) ==>
      SquaredDistance(s[Flat(x, y, width)]) <= StepSquared(ox, oy)
  }

  /** The squared length of a step to one of the eight neighbours: 1 to a
      side, 2 to a corner. */
  function StepSquared(ox: int, oy: int): int {
    (if ox == 0 then 0 else 1) + (if oy == 0 then 0 else 1)
  }

  /** For a neighbour offset, StepSquared is the squared length of the
      offset. */
  lemma StepSquaredIsLength(ox: int, oy: int)
    requires IsNeighbourOffset(ox, oy)
    ensures SquaredDistance(Point(ox, oy)) == StepSquared(ox, oy)
  {
    assert ox * ox == (if ox == 0 then 0 else 1);
    assert oy * oy == (if oy == 0 then 0 else 1);
  }

  /** Point p at cell (x, y) is within the step to its neighbour at
      (ox, oy) if that neighbour is a seed of `init`. */
  predicate WithinStep(init: seq<Point>, width: nat, height: nat, p: Point, x: int, y: int, ox: int, oy: int) {
    IsSeed(init, width, height, x + ox, y + oy) ==> SquaredDistance(p) <= StepSquared(ox, oy)
  }

  lemma WithinStepKeeps(init: seq<Point>, width: nat, height: nat, p: Point, q: Point, x: int, y: int, ox: int, oy: int)
    requires WithinStep(init, width, height, p, x, y, ox, oy) && Improves(p, q)
    ensures WithinStep(init, width, height, q, x, y, ox, oy)
  {
  }

  /** Writing a point that is within the step to a neighbour into cell (x, y)
      makes that cell's SeedNear hold. */
  lemma WithinStepSet(init: seq<Point>, width: nat, height: nat, s: seq<Point>, p: Point,
                      x: int, y: int, ox: int, oy: int)
    requires 0 <= x < width && 0 <= y < height && 0 <= Flat(x, y, width) < |s| && s[Flat(x, y, width)] == p
    requires WithinStep(init, width, height, p, x, y, ox, oy)
    ensures SeedNear(init, width, height, s, x, y, ox, oy)
  {
  }

  /** The four neighbours the forward pass compares with (left, up, up-left,
      up-right) are accounted for at every cell of [x0, x1) x [y0, y1). */
  ghost predicate UpperNear(init: seq<Point>, width: nat, height: nat, s: seq<Point>,
                            x0: int, x1: int, y0: int, y1: int) {
    forall x, y | x0 <= x < x1 && y0 <= y < y1 ::
      SeedNear(init, width, height, s, x, y, -1, 0) && SeedNear(init, width, height, s, x, y, 0, -1) &&
      SeedNear(init, width, height, s, x, y, -1, -1) && SeedNear(init, width, height, s, x, y, 1, -1)
  }

  /** The four neighbours the backward pass compares with (right, down,
      down-left, down-right) are accounted for at every cell of
      [x0, x1) x [y0, y1). */
  ghost predicate LowerNear(init: seq<Point>, width: nat, height: nat, s: seq<Point>,
                            x0: int, x1: int, y0: int, y1: int) {
    forall x, y | x0 <= x < x1 && y0 <= y < y1 ::
      SeedNear(init, width, height, s, x, y, 1, 0) && SeedNear(init, width, height, s, x, y, 0, 1) &&
      SeedNear(init, width, height, s, x, y, -1, 1) && SeedNear(init, width, height, s, x, y, 1, 1)
  }

  /** A seed among a cell's eight neighbours bounds the cell's squared
      distance by that of the step to it: 1 for a side, 2 for a corner. */
  ghost predicate NeighboursNear(init: seq<Point>, width: nat, height: nat, s: seq<Point>) {
    forall x, y, ox, oy | IsNeighbourOffset(ox, oy) && (ox != 0 || oy != 0) ::
      SeedNear(init, width, height, s, x, y, ox, oy)
  }

  /** Relaxing one cell keeps every SeedNear fact: that cell only got closer
      and no other cell changed. */
  lemma SeedNearKeeps(init: seq<Point>, width: nat, height: nat, before: seq<Point>, after: seq<Point>,
                      x: int, y: int)
    requires 0 <= x < width && 0 <= y < height && |before| == width * height
    requires RelaxedCell(init, width, height, before, after, x, y)
    ensures forall x', y', ox, oy {:trigger SeedNear(init, width, height, after, x', y', ox, oy)} ::
      SeedNear(init, width, height, before, x', y', ox, oy) ==> SeedNear(init, width, height, after, x', y', ox, oy)
  {
    FlatInBounds(x, y, width, height);
    var j := Flat(x, y, width);
    forall x', y', ox, oy | SeedNear(init, width, height, before, x', y', ox, oy)
      ensures SeedNear(init, width, height, after, x', y', ox, oy)
    {
      var k := Flat(x', y', width);
      if 0 <= k < |after| && k != j {
        assert after[k] == before[k];
      }
    }
  }

  /** Relaxing one cell keeps UpperNear and LowerNear on any rectangle. */
  lemma RectsKeep(init: seq<Point>, width: nat, height: nat, before: seq<Point>, after: seq<Point>,
                  x: int, y: int, x0: int, x1: int, y0: int, y1: int)
    requires 0 <= x < width && 0 <= y < height && |before| == width * height
    requires RelaxedCell(init, width, height, before, after, x, y)
    ensures UpperNear(init, width, height, before, x0, x1, y0, y1) ==> UpperNear(init, width, height, after, x0, x1, y0, y1)
    ensures LowerNear(init, width, height, before, x0, x1, y0, y1) ==> LowerNear(init, width, height, after, x0, x1, y0, y1)
  {
    SeedNearKeeps(init, width, height, before, after, x, y);
  }

  /** A row suffix grows by the cell just finished. */
  lemma LowerExtend(init: seq<Point>, width: nat, height: nat, s: seq<Point>, x: int, y: int)
    requires LowerNear(init, width, height, s, x + 1, width, y, y + 1)
    requires SeedNear(init, width, height, s, x, y, 1, 0) && SeedNear(init, width, height, s, x, y, 0, 1)
    requires SeedNear(init, width, height, s, x, y, -1, 1) && SeedNear(init, width, height, s, x, y, 1, 1)
    ensures LowerNear(init, width, height, s, x, width, y, y + 1)
  {
  }

  /** Two stacked rectangles make one. */
  lemma RowsJoin(init: seq<Point>, width: nat, height: nat, s: seq<Point>, x0: int, x1: int, y0: int, y1: int, y2: int)
    requires y0 <= y1 <= y2
    ensures UpperNear(init, width, height, s, x0, x1, y0, y1) && UpperNear(init, width, height, s, x0, x1, y1, y2) ==>
            UpperNear(init, width, height, s, x0, x1, y0, y2)
    ensures LowerNear(init, width, height, s, x0, x1, y0, y1) && LowerNear(init, width, height, s, x0, x1, y1, y2) ==>
            LowerNear(init, width, height, s, x0, x1, y0, y2)
  {
  }

  /** The forward pass's four neighbours and the backward pass's four cover
      all eight. */
  lemma BothPassesNear(init: seq<Point>, width: nat, height: nat, s: seq<Point>)
    requires UpperNear(init, width, height, s, 0, width, 0, height)
    requires LowerNear(init, width, height, s, 0, width, 0, height)
    ensures NeighboursNear(init, width, height, s)
  {
    forall x, y, ox, oy | IsNeighbourOffset(ox, oy) && (ox != 0 || oy != 0)
      ensures SeedNear(init, width, height, s, x, y, ox, oy)
    {
      if 0 <= x < width && 0 <= y < height {
        UpperAt(init, width, height, s, x, y);
        LowerAt(init, width, height, s, x, y);
        if oy == -1 {
          if ox == -1 {
          } else if ox == 0 {
          } else {
          }
        } else if oy == 0 {
          if ox == -1 {
          } else {
          }
        } else {
          if ox == -1 {
          } else if ox == 0 {
          } else {
          }
        }
      }
    }
  }

  lemma UpperAt(init: seq<Point>, width: nat, height: nat, s: seq<Point>, x: int, y: int)
    requires UpperNear(init, width, height, s, 0, width, 0, height) && 0 <= x < width && 0 <= y < height
    ensures SeedNear(init, width, height, s, x, y, -1, 0) && SeedNear(init, width, height, s, x, y, 0, -1)
    ensures SeedNear(init, width, height, s, x, y, -1, -1) && SeedNear(init, width, height, s, x, y, 1, -1)
  {
  }

  lemma LowerAt(init: seq<Point>, width: nat, height: nat, s: seq<Point>, x: int, y: int)
    requires LowerNear(init, width, height, s, 0, width, 0, height) && 0 <= x < width && 0 <= y < height
    ensures SeedNear(init, width, height, s, x, y, 1, 0) && SeedNear(init, width, height, s, x, y, 0, 1)
    ensures SeedNear(init, width, height, s, x, y, -1, 1) && SeedNear(init, width, height, s, x, y, 1, 1)
  {
  }

  /** No cell of `s` is farther than the same cell of `start`. */
  ghost predicate AllImprove(start: seq<Point>, s: seq<Point>) {
    |start| == |s| && forall i {:trigger Improves(start[i], s[i])} :: 0 <= i < |s| ==> Improves(start[i], s[i])
  }

  /** Every seed of `init` still holds offset (0, 0) in `s`. */
  predicate SeedsHeld(init: seq<Point>, s: seq<Point>) {
    |init| == |s| && forall i :: 0 <= i < |s| && init[i] == SeedPoint ==> s[i] == SeedPoint
  }

  /** A grid no cell of which got farther than in `init` still holds every
      seed of `init`. */
  lemma SeedsStay(init: seq<Point>, s: seq<Point>)
    requires AllImprove(init, s)
    ensures SeedsHeld(init, s)
  {
    forall i | 0 <= i < |s| && init[i] == SeedPoint
      ensures s[i] == SeedPoint
    {
      assert Improves(init[i], s[i]);
    }
  }

  lemma SeedShifted(p: Point, ox: int, oy: int)
    requires p == SeedPoint
    ensures Shifted(p, ox, oy) == Point(ox, oy)
  {
  }

  /** Seen from a cell one step (ox, oy) away, a seed of `init` that still
      holds (0, 0) is at the squared length of that step. */
  lemma SeedNeighbourStep(init: seq<Point>, s: seq<Point>, width: nat, height: nat,
                          tx: int, ty: int, ox: int, oy: int)
    requires SeedsHeld(init, s) && IsNeighbourOffset(ox, oy) && IsSeed(init, width, height, tx, ty)
    ensures 0 <= Flat(tx, ty, width) < |s|
    ensures SquaredDistance(Shifted(s[Flat(tx, ty, width)], ox, oy)) == StepSquared(ox, oy)
  {
    SeedShifted(s[Flat(tx, ty, width)], ox, oy);
    StepSquaredIsLength(ox, oy);
  }

  /** Every cell of a freshly seeded grid is a seed or holds the sentinel. */
  predicate Seeded(s: seq<Point>) {
    forall i :: 0 <= i < |s| ==> s[i] == SeedPoint || s[i] == DefaultPoint
  }

  /** When both dimensions are at most 9998 the phantom region lies outside the
      grid, so a cell whose offset leads to a seed or to the phantom region has
      offset (0, 0) only if it is itself a seed. */
  lemma ZeroOnlyAtSeeds(init: seq<Point>, width: nat, height: nat, x: int, y: int, p: Point)
    requires width <= Sentinel - 1 && height <= Sentinel - 1
    requires 0 <= x < width && 0 <= y < height
    requires LeadsToSeed(init, width, height, x, y, p)
    requires p == SeedPoint
    ensures IsSeed(init, width, height, x, y)
  {
  }

  /** Every cell of `s` has an offset that leads to a seed of `init` or into
      the phantom region. */
  predicate AllLead(init: seq<Point>, width: nat, height: nat, s: seq<Point>) {
    |s| == width * height &&
    forall x, y | 0 <= x < width && 0 <= y < height && 0 <= Flat(x, y, width) < |s| ::
      LeadsToSeed(init, width, height, x, y, s[Flat(x, y, width)])
  }

  /** Only cell (x, y) changed from `before` to `after`, to a point that
      improves on the old one and still leads to a seed of `init`. */
  predicate RelaxedCell(init: seq<Point>, width: nat, height: nat,
                        before: seq<Point>, after: seq<Point>, x: int, y: int)
    requires 0 <= x < width && 0 <= y < height && |before| == width * height
  {
    FlatInBounds(x, y, width, height);
    var j := Flat(x, y, width);
    |after| == |before| &&
    after == before[j := after[j]] &&
    Improves(before[j], after[j]) &&
    LeadsToSeed(init, width, height, x, y, after[j])
  }

  /** One relaxed cell keeps the grid-wide facts. */
  lemma RelaxKeeps(init: seq<Point>, width: nat, height: nat, start: seq<Point>,
                   before: seq<Point>, after: seq<Point>, x: int, y: int)
    requires 0 <= x < width && 0 <= y < height
    requires |before| == width * height
    requires AllLead(init, width, height, before)
    requires AllImprove(start, before)
    requires RelaxedCell(init, width, height, before, after, x, y)
    ensures AllLead(init, width, height, after)
    ensures AllImprove(start, after)
  {
    FlatInBounds(x, y, width, height);
    var j := Flat(x, y, width);
    assert |after| == |before|;
    forall i | 0 <= i < |after|
      ensures Improves(start[i], after[i])
    {
      assert Improves(start[i], before[i]);
      if i == j {
        ImprovesTransitive(start[i], before[i], after[i]);
      } else {
        assert after[i] == before[i];
      }
    }
    forall x', y' | 0 <= x' < width && 0 <= y' < height && 0 <= Flat(x', y', width) < |after|
      ensures LeadsToSeed(init, width, height, x', y', after[Flat(x', y', width)])
    {
      var k := Flat(x', y', width);
      if k == j {
        FlatInjective(x, y, x', y', width);
      } else {
        assert after[k] == before[k];
      }
    }
  }

  /** In a freshly seeded grid a seed cell leads to itself and a sentinel cell
      into the phantom region. */
  lemma SeededLeads(init: seq<Point>, width: nat, height: nat)
    requires |init| == width * height && Seeded(init)
    ensures AllLead(init, width, height, init)
  {
  }

  class Grid {
    const width: nat
    const height: nat
    /** Row-major cells, x + y * width. */
    const points: array<Point>

    ghost predicate Valid() {
      points.Length == width * height
    }

    predicate InBounds(x: int, y: int) {
      0 <= x < width && 0 <= y < height
    }

    /** Every cell's offset leads to a seed of `init` or into the phantom region. */
    ghost predicate AllLeadToSeeds(init: seq<Point>)
      reads points
      requires Valid()
    {
      AllLead(init, width, height, points[..])
    }

    constructor (width: nat, height: nat)
      ensures this.width == width && this.height == height
      ensures Valid() && fresh(points)
      ensures forall i :: 0 <= i < points.Length ==> points[i] == DefaultPoint
    {
      this.width := width;
      this.height := height;
      points := new Point[width * height](_ => DefaultPoint);
    }

    /** The stored point of an in-range cell. */
    function At(x: int, y: int): Point
      reads points
      requires Valid() && InBounds(x, y)
    {
      FlatInBounds(x, y, width, height);
      points[Flat(x, y, width)]
    }

    /** Grid::Get: the stored point of an in-range cell, the sentinel point for
        any index outside the grid (without touching `points`). */
    function Get(x: int, y: int): (p: Point)
      reads points
      requires Valid()
      ensures InBounds(x, y) ==> p == At(x, y)
      ensures !InBounds(x, y) ==> p == DefaultPoint
    {
      if x >= 0 && y >= 0 && x < width && y < height then
        FlatInBounds(x, y, width, height);
        points[x + y * width]
      else
        DefaultPoint
    }

    /** Grid::Set: overwrite the in-range cell (x, y). */
    method Set(x: int, y: int, point: Point)
      requires Valid() && InBounds(x, y)
      modifies points
      ensures 0 <= Flat(x, y, width) < points.Length
      ensures points[..] == old(points[..])[Flat(x, y, width) := point]
    {
      FlatInBounds(x, y, width, height);
      points[x + y * width] := point;
    }

    /** Grid::Compare: the neighbour at offset (ox, oy), shifted by that offset,
        replaces `point` only when its squared distance is strictly smaller. */
    function Compare(point: Point, x: int, y: int, ox: int, oy: int): (r: Point)
      reads points
      requires Valid()
      ensures r == point || r == Shifted(Get(x + ox, y + oy), ox, oy)
      ensures r != point ==> SquaredDistance(r) < SquaredDistance(point)
      ensures SquaredDistance(point) <= SquaredDistance(Shifted(Get(x + ox, y + oy), ox, oy)) ==> r == point
      ensures SquaredDistance(r) <= SquaredDistance(Shifted(Get(x + ox, y + oy), ox, oy))
      ensures Improves(point, r)
    {
      var other := Shifted(Get(x + ox, y + oy), ox, oy);
      if SquaredDistance(other) < SquaredDistance(point) then other else point
    }

    /** Compare keeps "leads to a seed": a neighbour's offset, shifted by the
        step to that neighbour, leads to the same target as the neighbour's, and
        the sentinel read outside the grid leads into the phantom region. */
    lemma CompareLeadsToSeed(init: seq<Point>, point: Point, x: int, y: int, ox: int, oy: int)
      requires Valid() && InBounds(x, y) && IsNeighbourOffset(ox, oy)
      requires AllLeadToSeeds(init)
      requires LeadsToSeed(init, width, height, x, y, point)
      ensures LeadsToSeed(init, width, height, x, y, Compare(point, x, y, ox, oy))
    {
      if InBounds(x + ox, y + oy) {
        FlatInBounds(x + ox, y + oy, width, height);
        var n := points[Flat(x + ox, y + oy, width)];
        assert LeadsToSeed(init, width, height, x + ox, y + oy, n);
        assert x + (n.dx + ox) == (x + ox) + n.dx;
        assert y + (n.dy + oy) == (y + oy) + n.dy;
      }
    }

    /** Comparing with a neighbour that was a seed of `init` brings the point
        within the step to that neighbour, since the seed still holds (0, 0). */
    lemma CompareNearSeed(init: seq<Point>, point: Point, x: int, y: int, ox: int, oy: int)
      requires Valid() && SeedsHeld(init, points[..]) && IsNeighbourOffset(ox, oy)
      ensures WithinStep(init, width, height, Compare(point, x, y, ox, oy), x, y, ox, oy)
    {
      if IsSeed(init, width, height, x + ox, y + oy) {
        SeedNeighbourStep(init, points[..], width, height, x + ox, y + oy, ox, oy);
        assert Get(x + ox, y + oy) == points[..][Flat(x + ox, y + oy, width)];
      }
    }

    /** Body of the left-to-right sweep of the forward pass. */
    method RelaxForward(ghost init: seq<Point>, x: int, y: int)
      requires Valid() && InBounds(x, y) && AllLeadToSeeds(init) && SeedsHeld(init, points[..])
      modifies points
      ensures RelaxedCell(init, width, height, old(points[..]), points[..], x, y)
      ensures SeedNear(init, width, height, points[..], x, y, -1, 0)
      ensures SeedNear(init, width, height, points[..], x, y, 0, -1)
      ensures SeedNear(init, width, height, points[..], x, y, -1, -1)
      ensures SeedNear(init, width, height, points[..], x, y, 1, -1)
    {
      FlatInBounds(x, y, width, height);
      var point := Get(x, y);
      ghost var start, previous := point, point;
      CompareLeadsToSeed(init, point, x, y, -1, 0);
      CompareNearSeed(init, point, x, y, -1, 0);
      previous := point;
      point := Compare(point, x, y, -1, 0);
      CompareLeadsToSeed(init, point, x, y, 0, -1);
      CompareNearSeed(init, point, x, y, 0, -1);
      previous := point;
      point := Compare(point, x, y, 0, -1);
      ImprovesTransitive(start, previous, point);
      WithinStepKeeps(init, width, height, previous, point, x, y, -1, 0);
      CompareLeadsToSeed(init, point, x, y, -1, -1);
      CompareNearSeed(init, point, x, y, -1, -1);
      previous := point;
      point := Compare(point, x, y, -1, -1);
      ImprovesTransitive(start, previous, point);
      WithinStepKeeps(init, width, height, previous, point, x, y, -1, 0);
      WithinStepKeeps(init, width, height, previous, point, x, y, 0, -1);
      CompareLeadsToSeed(init, point, x, y, 1, -1);
      CompareNearSeed(init, point, x, y, 1, -1);
      previous := point;
      point := Compare(point, x, y, 1, -1);
      ImprovesTransitive(start, previous, point);
      WithinStepKeeps(init, width, height, previous, point, x, y, -1, 0);
      WithinStepKeeps(init, width, height, previous, point, x, y, 0, -1);
      WithinStepKeeps(init, width, height, previous, point, x, y, -1, -1);
      Set(x, y, point);
      WithinStepSet(init, width, height, points[..], point, x, y, -1, 0);
      WithinStepSet(init, width, height, points[..], point, x, y, 0, -1);
      WithinStepSet(init, width, height, points[..], point, x, y, -1, -1);
      WithinStepSet(init, width, height, points[..], point, x, y, 1, -1);
    }

    /** Body of the right-to-left sweep of the forward pass. */
    method RelaxFromRight(ghost init: seq<Point>, x: int, y: int)
      requires Valid() && InBounds(x, y) && AllLeadToSeeds(init)
      modifies points
      ensures RelaxedCell(init, width, height, old(points[..]), points[..], x, y)
    {
      FlatInBounds(x, y, width, height);
      var point := Get(x, y);
      CompareLeadsToSeed(init, point, x, y, 1, 0);
      point := Compare(point, x, y, 1, 0);
      Set(x, y, point);
    }

    /** Body of the right-to-left sweep of the backward pass. */
    method RelaxBackward(ghost init: seq<Point>, x: int, y: int)
      requires Valid() && InBounds(x, y) && AllLeadToSeeds(init) && SeedsHeld(init, points[..])
      modifies points
      ensures RelaxedCell(init, width, height, old(points[..]), points[..], x, y)
      ensures SeedNear(init, width, height, points[..], x, y, 1, 0)
      ensures SeedNear(init, width, height, points[..], x, y, 0, 1)
      ensures SeedNear(init, width, height, points[..], x, y, -1, 1)
      ensures SeedNear(init, width, height, points[..], x, y, 1, 1)
    {
      FlatInBounds(x, y, width, height);
      var point := Get(x, y);
      ghost var start, previous := point, point;
      CompareLeadsToSeed(init, point, x, y, 1, 0);
      CompareNearSeed(init, point, x, y, 1, 0);
      previous := point;
      point := Compare(point, x, y, 1, 0);
      CompareLeadsToSeed(init, point, x, y, 0, 1);
      CompareNearSeed(init, point, x, y, 0, 1);
      previous := point;
      point := Compare(point, x, y, 0, 1);
      ImprovesTransitive(start, previous, point);
      WithinStepKeeps(init, width, height, previous, point, x, y, 1, 0);
      CompareLeadsToSeed(init, point, x, y, -1, 1);
      CompareNearSeed(init, point, x, y, -1, 1);
      previous := point;
      point := Compare(point, x, y, -1, 1);
      ImprovesTransitive(start, previous, point);
      WithinStepKeeps(init, width, height, previous, point, x, y, 1, 0);
      WithinStepKeeps(init, width, height, previous, point, x, y, 0, 1);
      CompareLeadsToSeed(init, point, x, y, 1, 1);
      CompareNearSeed(init, point, x, y, 1, 1);
      previous := point;
      point := Compare(point, x, y, 1, 1);
      ImprovesTransitive(start, previous, point);
      WithinStepKeeps(init, width, height, previous, point, x, y, 1, 0);
      WithinStepKeeps(init, width, height, previous, point, x, y, 0, 1);
      WithinStepKeeps(init, width, height, previous, point, x, y, -1, 1);
      Set(x, y, point);
      WithinStepSet(init, width, height, points[..], point, x, y, 1, 0);
      WithinStepSet(init, width, height, points[..], point, x, y, 0, 1);
      WithinStepSet(init, width, height, points[..], point, x, y, -1, 1);
      WithinStepSet(init, width, height, points[..], point, x, y, 1, 1);
    }

    /** Body of the left-to-right sweep of the backward pass. */
    method RelaxFromLeft(ghost init: seq<Point>, x: int, y: int)
      requires Valid() && InBounds(x, y) && AllLeadToSeeds(init)
      modifies points
      ensures RelaxedCell(init, width, height, old(points[..]), points[..], x, y)
    {
      FlatInBounds(x, y, width, height);
      var point := Get(x, y);
      CompareLeadsToSeed(init, point, x, y, -1, 0);
      point := Compare(point, x, y, -1, 0);
      Set(x, y, point);
    }

    /** One cell of the forward pass's left-to-right sweep: the row prefix
        with its four forward neighbours accounted for grows by one cell. */
    method ForwardStep(ghost init: seq<Point>, x: int, y: int)
      requires Valid() && InBounds(x, y) && AllLeadToSeeds(init) && AllImprove(init, points[..])
      requires UpperNear(init, width, height, points[..], 0, width, 0, y)
      requires UpperNear(init, width, height, points[..], 0, x, y, y + 1)
      modifies points
      ensures AllLeadToSeeds(init) && AllImprove(init, points[..])
      ensures UpperNear(init, width, height, points[..], 0, width, 0, y)
      ensures UpperNear(init, width, height, points[..], 0, x + 1, y, y + 1)
    {
      ghost var before := points[..];
      SeedsStay(init, before);
      RelaxForward(init, x, y);
      RelaxKeeps(init, width, height, init, before, points[..], x, y);
      RectsKeep(init, width, height, before, points[..], x, y, 0, width, 0, y);
      RectsKeep(init, width, height, before, points[..], x, y, 0, x, y, y + 1);
    }

    /** One cell of the forward pass's right-to-left sweep. */
    method FromRightStep(ghost init: seq<Point>, x: int, y: int)
      requires Valid() && InBounds(x, y) && AllLeadToSeeds(init) && AllImprove(init, points[..])
      requires UpperNear(init, width, height, points[..], 0, width, 0, y + 1)
      modifies points
      ensures AllLeadToSeeds(init) && AllImprove(init, points[..])
      ensures UpperNear(init, width, height, points[..], 0, width, 0, y + 1)
    {
      ghost var before := points[..];
      RelaxFromRight(init, x, y);
      RelaxKeeps(init, width, height, init, before, points[..], x, y);
      RectsKeep(init, width, height, before, points[..], x, y, 0, width, 0, y + 1);
    }

    /** One cell of the backward pass's right-to-left sweep: the row suffix
        with its four backward neighbours accounted for grows by one cell. */
    method BackwardStep(ghost init: seq<Point>, x: int, y: int)
      requires Valid() && InBounds(x, y) && AllLeadToSeeds(init) && AllImprove(init, points[..])
      requires UpperNear(init, width, height, points[..], 0, width, 0, height)
      requires LowerNear(init, width, height, points[..], 0, width, y + 1, height)
      requires LowerNear(init, width, height, points[..], x + 1, width, y, y + 1)
      modifies points
      ensures AllLeadToSeeds(init) && AllImprove(init, points[..])
      ensures UpperNear(init, width, height, points[..], 0, width, 0, height)
      ensures LowerNear(init, width, height, points[..], 0, width, y + 1, height)
      ensures LowerNear(init, width, height, points[..], x, width, y, y + 1)
    {
      ghost var before := points[..];
      SeedsStay(init, before);
      RelaxBackward(init, x, y);
      RelaxKeeps(init, width, height, init, before, points[..], x, y);
      RectsKeep(init, width, height, before, points[..], x, y, 0, width, 0, height);
      RectsKeep(init, width, height, before, points[..], x, y, 0, width, y + 1, height);
      RectsKeep(init, width, height, before, points[..], x, y, x + 1, width, y, y + 1);
      LowerExtend(init, width, height, points[..], x, y);
    }

    /** One cell of the backward pass's left-to-right sweep. */
    method FromLeftStep(ghost init: seq<Point>, x: int, y: int)
      requires Valid() && InBounds(x, y) && AllLeadToSeeds(init) && AllImprove(init, points[..])
      requires UpperNear(init, width, height, points[..], 0, width, 0, height)
      requires LowerNear(init, width, height, points[..], 0, width, y, height)
      modifies points
      ensures AllLeadToSeeds(init) && AllImprove(init, points[..])
      ensures UpperNear(init, width, height, points[..], 0, width, 0, height)
      ensures LowerNear(init, width, height, points[..], 0, width, y, height)
    {
      ghost var before := points[..];
      RelaxFromLeft(init, x, y);
      RelaxKeeps(init, width, height, init, before, points[..], x, y);
      RectsKeep(init, width, height, before, points[..], x, y, 0, width, 0, height);
      RectsKeep(init, width, height, before, points[..], x, y, 0, width, y, height);
    }

    /** Grid::GenerateSdf: a forward pass (rows top to bottom; each row left to
        right, then right to left) and a backward pass (rows bottom to top; each
        row right to left, then left to right). No cell's squared distance ever
        grows, seed cells keep offset (0, 0), every offset leads to a cell that
        was a seed or into the sentinel's phantom region, and every cell next
        to a seed ends within the step to it. */
    method GenerateSdf()
      requires Valid() && Seeded(points[..])
      modifies points
      ensures forall i :: 0 <= i < points.Length ==> Improves(old(points[i]), points[i])
      ensures AllLeadToSeeds(old(points[..]))
      ensures NeighboursNear(old(points[..]), width, height, points[..])
    {
      ghost var init := points[..];
      SeededLeads(init, width, height);
      var y := 0;
      while y < height
        invariant 0 <= y <= height
        invariant AllLeadToSeeds(init) && AllImprove(init, points[..])
        invariant UpperNear(init, width, height, points[..], 0, width, 0, y)
      {
        var x := 0;
        while x < width
          invariant 0 <= x <= width
          invariant AllLeadToSeeds(init) && AllImprove(init, points[..])
          invariant UpperNear(init, width, height, points[..], 0, width, 0, y)
          invariant UpperNear(init, width, height, points[..], 0, x, y, y + 1)
        {
          ForwardStep(init, x, y);
          x := x + 1;
        }
        RowsJoin(init, width, height, points[..], 0, width, 0, y, y + 1);
        x := width - 1;
        while x >= 0
          invariant -1 <= x < width
          invariant AllLeadToSeeds(init) && AllImprove(init, points[..])
          invariant UpperNear(init, width, height, points[..], 0, width, 0, y + 1)
        {
          FromRightStep(init, x, y);
          x := x - 1;
        }
        y := y + 1;
      }

      y := height - 1;
      while y >= 0
        invariant -1 <= y < height
        invariant AllLeadToSeeds(init) && AllImprove(init, points[..])
        invariant UpperNear(init, width, height, points[..], 0, width, 0, height)
        invariant LowerNear(init, width, height, points[..], 0, width, y + 1, height)
      {
        var x := width - 1;
        while x >= 0
          invariant -1 <= x < width
          invariant AllLeadToSeeds(init) && AllImprove(init, points[..])
          invariant UpperNear(init, width, height, points[..], 0, width, 0, height)
          invariant LowerNear(init, width, height, points[..], 0, width, y + 1, height)
          invariant LowerNear(init, width, height, points[..], x + 1, width, y, y + 1)
        {
          BackwardStep(init, x, y);
          x := x - 1;
        }
        RowsJoin(init, width, height, points[..], 0, width, y, y + 1, height);
        x := 0;
        while x < width
          invariant 0 <= x <= width
          invariant AllLeadToSeeds(init) && AllImprove(init, points[..])
          invariant UpperNear(init, width, height, points[..], 0, width, 0, height)
          invariant LowerNear(init, width, height, points[..], 0, width, y, height)
        {
          FromLeftStep(init, x, y);
          x := x + 1;
        }
        y := y - 1;
      }
      BothPassesNear(init, width, height, points[..]);
      forall i | 0 <= i < points.Length
        ensures Improves(old(points[i]), points[i])
      {
        assert Improves(init[i], points[..][i]);
      }
    }
  }
}
