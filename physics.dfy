/** The discrete bookkeeping of the physics step (ecs/systems/PhysicsSystem.cpp):
    the per-shape mass cache, the contacts each stage may add, the
    sequential-impulse accumulators of the solver, and the emptying of the
    contact list. Floating-point values are modelled as reals; the marching
    and plane geometry that decide where contacts lie are parameters. */
module Physics {
  import opened Ids
  import opened Vectors
  import opened Shapes
  import opened Wrappers
  import opened SpatialHash

  /** The registry's invalid_entity(), used as the right side of a contact
      with a boundary plane: the entity the registry creates first, which
      entt numbers 0. It never gets components, so no physics body is
      registered under it. */
  const InvalidEntity: Entity := 0

  /** c_MaxSteps of a contact walker. */
  const MaxSteps: nat := 50

  /** c_MaxSolverIterations */
  const SolverIterations: nat := 5

  /** c_Friction */
  const Friction: real := 0.2

  /** The density of every non-empty pixel. */
  const Density: real := 100.0

  /** PhysicsComponent */
  datatype Body = Body(velocity: Vec2, angularVelocity: real, centerOfMass: Vec2, mass: real)

  /** MassValues. The centre of mass is None where the code divides 0 by 0. */
  datatype MassValues = MassValues(centerOfMass: Option<Vec2>, mass: real)

  /** Contact */
  datatype Contact = Contact(left: Entity, right: Entity, position: Vec2, normal: Vec2,
                             depth: real, previousImpulse: real, previousTangentImpulse: real)

  /** A freshly generated contact: both accumulators start at zero. */
  predicate IsNew(c: Contact) {
    c.previousImpulse == 0.0 && c.previousTangentImpulse == 0.0
  }

  // ---------------------------------------------------------------------
  // Rigid-body velocity and impulses
  // ---------------------------------------------------------------------

  /** CalculateVelocityAt: the velocity of the point `at` of a body whose
      transform is at `origin`. */
  function VelocityAt(body: Body, origin: Vec2, at: Vec2): (r: Vec2)
    ensures at == origin ==> r == body.velocity
  {
    var pivot := Sub(at, origin);
    Add(body.velocity, Scale(body.angularVelocity, Perp(pivot)))
  }

  /** The rotational part of the point velocity is perpendicular to the
      lever arm. */
  lemma RotationIsPerpendicular(body: Body, origin: Vec2, at: Vec2)
    ensures Dot(Sub(VelocityAt(body, origin, at), body.velocity), Sub(at, origin)) == 0.0
  {
    var p := Sub(at, origin);
    var w := body.angularVelocity;
    var d := Sub(VelocityAt(body, origin, at), body.velocity);
    assert d == Vec2(w * -p.y, w * p.x);
    assert (w * -p.y) * p.x + (w * p.x) * p.y == 0.0;
  }

  /** ApplyImpulseAt: the impulse divided by the mass changes the velocity;
      its moment about the transform changes the angular velocity (no inertia
      tensor is used). */
  function ApplyImpulseAt(body: Body, origin: Vec2, impulse: Vec2, at: Vec2): (r: Body)
    requires body.mass != 0.0
    ensures r.mass == body.mass && r.centerOfMass == body.centerOfMass
    ensures Scale(body.mass, Sub(r.velocity, body.velocity)) == impulse
    ensures r.angularVelocity - body.angularVelocity == Cross(Sub(at, origin), impulse)
  {
    var pivot := Sub(at, origin);
    body.(velocity := Add(body.velocity, Vec2(impulse.x / body.mass, impulse.y / body.mass)),
          angularVelocity := body.angularVelocity + (pivot.x * impulse.y - pivot.y * impulse.x))
  }

  /** Two impulses at the same point act as their sum; AppliedImpulsesAddUp
      uses this to add up the deltas the solver applies over its passes. */
  lemma ImpulsesCompose(body: Body, origin: Vec2, a: Vec2, b: Vec2, at: Vec2)
    requires body.mass != 0.0
    ensures ApplyImpulseAt(ApplyImpulseAt(body, origin, a, at), origin, b, at) ==
            ApplyImpulseAt(body, origin, Add(a, b), at)
  {
    var m := body.mass;
    assert a.x / m + b.x / m == (a.x + b.x) / m;
    assert a.y / m + b.y / m == (a.y + b.y) / m;
  }

  /** The left body receives the negated impulse and the right body the
      impulse itself, so their total linear momentum is unchanged. */
  lemma MomentumConserved(left: Body, right: Body, originLeft: Vec2, originRight: Vec2, impulse: Vec2, at: Vec2)
    requires left.mass != 0.0 && right.mass != 0.0
    ensures var l := ApplyImpulseAt(left, originLeft, Neg(impulse), at);
            var r := ApplyImpulseAt(right, originRight, impulse, at);
            Add(Scale(l.mass, l.velocity), Scale(r.mass, r.velocity)) ==
            Add(Scale(left.mass, left.velocity), Scale(right.mass, right.velocity))
  {
    var l := ApplyImpulseAt(left, originLeft, Neg(impulse), at);
    var r := ApplyImpulseAt(right, originRight, impulse, at);
    assert Scale(left.mass, Sub(l.velocity, left.velocity)) == Neg(impulse);
    assert Scale(right.mass, Sub(r.velocity, right.velocity)) == impulse;
    assert left.mass * l.velocity.x == left.mass * left.velocity.x + left.mass * (l.velocity.x - left.velocity.x);
    assert left.mass * l.velocity.y == left.mass * left.velocity.y + left.mass * (l.velocity.y - left.velocity.y);
    assert right.mass * r.velocity.x == right.mass * right.velocity.x + right.mass * (r.velocity.x - right.velocity.x);
    assert right.mass * r.velocity.y == right.mass * right.velocity.y + right.mass * (r.velocity.y - right.velocity.y);
  }

  // ---------------------------------------------------------------------
  // Accumulator clamps
  // ---------------------------------------------------------------------

  /** glm::clamp(x, lo, hi) == min(max(x, lo), hi). */
  function Clamp(x: real, lo: real, hi: real): (r: real)
    requires lo <= hi
    ensures lo <= r <= hi
    ensures lo <= x <= hi ==> r == x
    ensures x < lo ==> r == lo
    ensures hi < x ==> r == hi
  {
    var m := if x < lo then lo else x;
    if hi < m then hi else m
  }

  function Abs(x: real): (r: real)
    ensures r >= 0.0 && (r == x || r == -x)
  {
    if x < 0.0 then -x else x
  }

  /** The new cumulative normal impulse: never positive (the contact only
      pushes), and equal to previous + raw whenever that is not positive. */
  function AccumulateNormal(previous: real, raw: real): (r: real)
    ensures r <= 0.0
    ensures raw + previous <= 0.0 ==> r == raw + previous
    ensures raw + previous > 0.0 ==> r == 0.0
  {
    Min(raw + previous, 0.0)
  }

  /** The new cumulative tangent impulse: previous + raw, clamped to the friction
      cone of the new cumulative normal impulse. */
  function AccumulateTangent(previous: real, raw: real, normal: real): (r: real)
    ensures Abs(r) <= Friction * Abs(normal)
    ensures Abs(raw + previous) <= Friction * Abs(normal) ==> r == raw + previous
  {
    var limit := Abs(Friction * normal);
    assert limit == Friction * Abs(normal);
    Clamp(raw + previous, -limit, limit)
  }

  /** The accumulators a contact keeps between solver updates. */
  predicate AccumulatorsBounded(c: Contact) {
    c.previousImpulse <= 0.0 && Abs(c.previousTangentImpulse) <= Friction * Abs(c.previousImpulse)
  }

  lemma NewContactIsBounded(c: Contact)
    requires IsNew(c)
    ensures AccumulatorsBounded(c)
  {
  }

  /** The tangent direction (normal.y, -normal.x). */
  function Tangent(n: Vec2): (r: Vec2)
    ensures Dot(r, n) == 0.0
  {
    Vec2(n.y, -n.x)
  }

  // ---------------------------------------------------------------------
  // Contact generation
  // ---------------------------------------------------------------------

  /** What one step of a walker finds: whether the marched point is inside
      both shapes, whether the step has become smaller than half a pixel,
      and the contact data the code would record there. */
  datatype Probe = Probe(inside: bool, settled: bool, position: Vec2, normal: Vec2, distance: real)

  /** One walker of the narrow phase: at most MaxSteps steps, stopping early
      once it is inside with a small step, and a contact if its last step
      ended inside. `probe(walker, i)` is what step i of the walker finds. */
  method MarchWalker(left: Entity, right: Entity, walker: nat, probe: (nat, nat) -> Probe)
    returns (contact: Option<Contact>, steps: nat)
    ensures 1 <= steps <= MaxSteps
    ensures forall i | 0 <= i < steps - 1 :: !(probe(walker, i).inside && probe(walker, i).settled)
    ensures steps < MaxSteps ==> probe(walker, steps - 1).inside && probe(walker, steps - 1).settled
    ensures contact.Some? <==> probe(walker, steps - 1).inside
    ensures contact.Some? ==>
      var p := probe(walker, steps - 1);
      contact.value == Contact(left, right, p.position, p.normal, 2.0 * Abs(p.distance), 0.0, 0.0)
  {
    var inside := false;
    var last := probe(walker, 0);
    steps := 0;
    while steps < MaxSteps
      invariant 0 <= steps <= MaxSteps
      invariant steps > 0 ==> last == probe(walker, steps - 1) && inside == last.inside
      invariant forall i | 0 <= i < steps :: !(probe(walker, i).inside && probe(walker, i).settled)
    {
      last := probe(walker, steps);
      inside := last.inside;
      steps := steps + 1;
      if last.inside && last.settled {
        break;
      }
    }
    if inside {
      contact := Some(Contact(left, right, last.position, last.normal, 2.0 * Abs(last.distance), 0.0, 0.0));
    } else {
      contact := None;
    }
  }

  /** The two walkers of one broadphase pair: at most two contacts, each
      between the pair's entities, new, and with a non-negative depth. */
  method MarchPair(left: Entity, right: Entity, probe: (nat, nat) -> Probe) returns (added: seq<Contact>)
    ensures |added| <= 2
    ensures forall c | c in added :: c.left == left && c.right == right && IsNew(c) && c.depth >= 0.0
  {
    added := [];
    var walker := 0;
    while walker < 2
      invariant 0 <= walker <= 2 && |added| <= walker
      invariant forall c | c in added :: c.left == left && c.right == right && IsNew(c) && c.depth >= 0.0
    {
      var contact, _ := MarchWalker(left, right, walker, probe);
      if contact.Some? {
        added := added + [contact.value];
      }
      walker := walker + 1;
    }
  }

  /** The number of non-empty pixels among the first n of an image. */
  function FilledCount(image: seq<U8>, n: nat): (r: nat)
    requires n <= |image|
    ensures r <= n
  {
    if n == 0 then 0 else FilledCount(image, n - 1) + (if image[n - 1] != MaterialEmptySpace then 1 else 0)
  }

  /** A boundary plane: the contacts of one body against the plane through
      `origin` (already projected on the plane normal). Nothing is added
      unless the body's bounding radius reaches the plane; otherwise every
      non-empty pixel whose projected centre, less the pixel radius, lies at
      or behind the plane adds one contact with the invalid entity on the
      right and the penetration as depth. `projected(x, y)` and `at(x, y)`
      are the pixel centre projected on the normal and in world space. */
  method PlaneContacts(entity: Entity, shape: Shape, origin: real, projectedCenter: real, radius: real,
                       pixelRadius: real, normal: Vec2, projected: (nat, nat) -> real, at: (nat, nat) -> Vec2)
    returns (added: seq<Contact>)
    requires WellFormed(shape)
    ensures projectedCenter - radius > origin ==> added == []
    ensures |added| <= FilledCount(shape.image, |shape.image|)
    ensures forall c | c in added :: c.left == entity && c.right == InvalidEntity && IsNew(c) && c.depth >= 0.0
  {
    added := [];
    if projectedCenter - radius <= origin {
      var y := 0;
      while y < shape.height
        invariant 0 <= y <= shape.height
        invariant |added| <= FilledCount(shape.image, Flat(0, y, shape.width))
        invariant forall c | c in added :: c.left == entity && c.right == InvalidEntity && IsNew(c) && c.depth >= 0.0
      {
        MulMonotone(y, shape.height, shape.width);
        var x := 0;
        while x < shape.width
          invariant 0 <= x <= shape.width
          invariant Flat(x, y, shape.width) <= |shape.image|
          invariant |added| <= FilledCount(shape.image, Flat(x, y, shape.width))
          invariant forall c | c in added :: c.left == entity && c.right == InvalidEntity && IsNew(c) && c.depth >= 0.0
        {
          FlatInBounds(x, y, shape.width, shape.height);
          var pixel := GetPixelAt(shape, x, y);
          if pixel != MaterialEmptySpace {
            var p := projected(x, y);
            if p - pixelRadius <= origin {
              var overlap := origin - (p - pixelRadius);
              added := added + [Contact(entity, InvalidEntity, Sub(at(x, y), Scale(pixelRadius, normal)), normal, overlap, 0.0, 0.0)];
            }
          }
          x := x + 1;
        }
        FlatNextRow(y, shape.width, shape.height);
        y := y + 1;
      }
      FlatNextRow(0, shape.width, shape.height);
    }
  }

  // ---------------------------------------------------------------------
  // Mass values
  // ---------------------------------------------------------------------

  /** The centre of pixel k of a raster `width` wide, in metres. */
  function PixelCenter(k: nat, width: nat, pixelSize: real): Vec2
    requires width > 0
  {
    Scale(pixelSize, Vec2((k % width) as real + 0.5, (k / width) as real + 0.5))
  }

  /** The sum of the centres of the non-empty pixels among the first n. */
  function PositionSum(image: seq<U8>, width: nat, n: nat, pixelSize: real): Vec2
    requires n <= |image| && width > 0
  {
    if n == 0 then Zero
    else if image[n - 1] != MaterialEmptySpace then Add(PositionSum(image, width, n - 1, pixelSize), PixelCenter(n - 1, width, pixelSize))
    else PositionSum(image, width, n - 1, pixelSize)
  }

  /** The mass the scan has accumulated after the first n pixels, one
      addition of pixelMass per non-empty pixel. */
  function MassSum(image: seq<U8>, n: nat, pixelMass: real): real
    requires n <= |image|
  {
    if n == 0 then 0.0
    else if image[n - 1] != MaterialEmptySpace then MassSum(image, n - 1, pixelMass) + pixelMass
    else MassSum(image, n - 1, pixelMass)
  }

  /** The weighted position the scan has accumulated after the first n
      pixels. */
  function MomentSum(image: seq<U8>, width: nat, n: nat, pixelSize: real, pixelMass: real): Vec2
    requires n <= |image| && width > 0
  {
    if n == 0 then Zero
    else if image[n - 1] != MaterialEmptySpace
      then Add(MomentSum(image, width, n - 1, pixelSize, pixelMass), Scale(pixelMass, PixelCenter(n - 1, width, pixelSize)))
    else MomentSum(image, width, n - 1, pixelSize, pixelMass)
  }

  /** The accumulated mass is the filled-pixel count times the pixel mass. */
  lemma {:induction false} MassSumIsProduct(image: seq<U8>, n: nat, pixelMass: real)
    requires n <= |image|
    ensures MassSum(image, n, pixelMass) == FilledCount(image, n) as real * pixelMass
  {
    if n > 0 {
      MassSumIsProduct(image, n - 1, pixelMass);
      var c := FilledCount(image, n - 1) as real;
      assert (c + 1.0) * pixelMass == c * pixelMass + pixelMass;
    }
  }

  /** The accumulated moment is the pixel mass times the sum of the
      centres. */
  lemma {:induction false} MomentSumIsScaled(image: seq<U8>, width: nat, n: nat, pixelSize: real, pixelMass: real)
    requires n <= |image| && width > 0
    ensures MomentSum(image, width, n, pixelSize, pixelMass) == Scale(pixelMass, PositionSum(image, width, n, pixelSize))
  {
    if n > 0 {
      MomentSumIsScaled(image, width, n - 1, pixelSize, pixelMass);
      if image[n - 1] != MaterialEmptySpace {
        ScaleDistributes(pixelMass, PositionSum(image, width, n - 1, pixelSize), PixelCenter(n - 1, width, pixelSize));
      }
    }
  }

  lemma ScaleDistributes(m: real, a: Vec2, b: Vec2)
    ensures Scale(m, Add(a, b)) == Add(Scale(m, a), Scale(m, b))
  {
    assert m * (a.x + b.x) == m * a.x + m * b.x;
    assert m * (a.y + b.y) == m * a.y + m * b.y;
  }

  /** The weighted position sum divided by the mass, or None for 0 / 0. */
  function Centroid(sum: Vec2, mass: real): (r: Option<Vec2>)
    ensures r.None? <==> mass == 0.0
  {
    if mass == 0.0 then None else Some(Vec2(sum.x / mass, sum.y / mass))
  }

  /** The mass the whole scan accumulates. */
  function TotalMass(image: seq<U8>, pixelMass: real): (m: real)
    ensures m == FilledCount(image, |image|) as real * pixelMass
  {
    MassSumIsProduct(image, |image|, pixelMass);
    MassSum(image, |image|, pixelMass)
  }

  /** The mass values of a shape as the scan accumulates them: every
      non-empty pixel adds pixelArea * Density to the mass and that mass
      times its centre to the moment; the centre of mass is the moment
      divided by the mass. */
  function MassValuesOf(shape: Shape, pixelSize: real, pixelArea: real): (r: MassValues)
    requires WellFormed(shape)
    ensures r.mass == FilledCount(shape.image, |shape.image|) as real * (pixelArea * Density)
    ensures r.centerOfMass.None? <==> r.mass == 0.0
  {
    var pixelMass := pixelArea * Density;
    var mass := TotalMass(shape.image, pixelMass);
    if shape.width == 0 then MassValues(None, mass)
    else MassValues(Centroid(MomentSum(shape.image, shape.width, |shape.image|, pixelSize, pixelMass), mass), mass)
  }

  /** With a positive pixel area, the mass is zero only for an empty image,
      and the centre of mass is the mean of the centres of the non-empty
      pixels. */
  lemma CentroidIsMean(shape: Shape, pixelSize: real, pixelArea: real)
    requires WellFormed(shape) && pixelArea > 0.0
    ensures var count := FilledCount(shape.image, |shape.image|);
            var r := MassValuesOf(shape, pixelSize, pixelArea);
            (r.mass == 0.0 <==> count == 0) &&
            (count > 0 ==>
              r.centerOfMass == Some(Scale(1.0 / count as real, PositionSum(shape.image, shape.width, |shape.image|, pixelSize))))
  {
    var count := FilledCount(shape.image, |shape.image|);
    var w := pixelArea * Density;
    var c := count as real;
    MassSumIsProduct(shape.image, |shape.image|, w);
    ProductZero(c, w);
    if count > 0 {
      assert shape.width > 0 by {
        assert shape.width * shape.height > 0;
      }
      var s := PositionSum(shape.image, shape.width, |shape.image|, pixelSize);
      var moment := MomentSum(shape.image, shape.width, |shape.image|, pixelSize, w);
      var mass := MassSum(shape.image, |shape.image|, w);
      assert mass == c * w;
      assert MassValuesOf(shape, pixelSize, pixelArea).centerOfMass == Centroid(moment, mass);
      MomentSumIsScaled(shape.image, shape.width, |shape.image|, pixelSize, w);
      CentroidOfScaled(s, c, w);
    }
  }

  /** A product of a non-negative count and a positive weight is zero only
      when the count is. */
  lemma ProductZero(c: real, w: real)
    requires c >= 0.0 && w > 0.0
    ensures c * w == 0.0 <==> c == 0.0
  {
    if c > 0.0 {
      assert c * w > 0.0;
    }
  }

  /** Dividing w times a sum by c times w gives the sum divided by c. */
  lemma CentroidOfScaled(s: Vec2, c: real, w: real)
    requires c > 0.0 && w > 0.0
    ensures Centroid(Scale(w, s), c * w) == Some(Scale(1.0 / c, s))
  {
    var m := c * w;
    assert m != 0.0;
    var v := Scale(w, s);
    assert v.x == w * s.x && v.y == w * s.y;
    assert Centroid(v, m) == Some(Vec2(v.x / m, v.y / m));
    DivideOutWeight(w, c, s.x);
    DivideOutWeight(w, c, s.y);
    assert v.x / m == (1.0 / c) * s.x && v.y / m == (1.0 / c) * s.y;
    assert Scale(1.0 / c, s) == Vec2((1.0 / c) * s.x, (1.0 / c) * s.y);
  }

  lemma DivideOutWeight(w: real, c: real, x: real)
    requires w > 0.0 && c > 0.0
    ensures (w * x) / (c * w) == (1.0 / c) * x
  {
    assert (w * x) / (c * w) == x / c;
  }

  /** The scan of GetMassValues over all size.y * size.x pixels. */
  method ComputeMassValues(shape: Shape, pixelSize: real, pixelArea: real) returns (r: MassValues)
    requires WellFormed(shape)
    ensures r == MassValuesOf(shape, pixelSize, pixelArea)
  {
    var pixelMass := pixelArea * Density;
    var center := Zero;
    var mass := 0.0;
    var y := 0;
    while y < shape.height
      invariant 0 <= y <= shape.height
      invariant ScanInvariant(shape, Flat(0, y, shape.width), pixelSize, pixelMass, mass, center)
    {
      MulMonotone(y + 1, shape.height, shape.width);
      mass, center := ScanRow(shape, y, pixelSize, pixelMass, mass, center);
      y := y + 1;
    }
    FlatNextRow(0, shape.width, shape.height);
    if shape.width == 0 {
      r := MassValues(None, mass);
    } else {
      r := MassValues(Centroid(center, mass), mass);
    }
  }

  /** The accumulated mass and moment after the first n pixels. */
  ghost predicate ScanInvariant(shape: Shape, n: int, pixelSize: real, pixelMass: real, mass: real, center: Vec2)
    requires WellFormed(shape)
  {
    0 <= n <= |shape.image| &&
    mass == MassSum(shape.image, n, pixelMass) &&
    (shape.width > 0 ==> center == MomentSum(shape.image, shape.width, n, pixelSize, pixelMass))
  }

  /** One row of the mass scan. */
  method ScanRow(shape: Shape, y: nat, pixelSize: real, pixelMass: real, mass0: real, center0: Vec2)
    returns (mass: real, center: Vec2)
    requires WellFormed(shape) && y < shape.height
    requires ScanInvariant(shape, Flat(0, y, shape.width), pixelSize, pixelMass, mass0, center0)
    ensures ScanInvariant(shape, Flat(0, y + 1, shape.width), pixelSize, pixelMass, mass, center)
  {
    mass, center := mass0, center0;
    var x := 0;
    while x < shape.width
      invariant 0 <= x <= shape.width
      invariant ScanInvariant(shape, Flat(x, y, shape.width), pixelSize, pixelMass, mass, center)
    {
      FlatInBounds(x, y, shape.width, shape.height);
      FlatCoordinates(x, y, shape.width);
      var k := Flat(x, y, shape.width);
      var pixel := GetPixelAt(shape, x, y);
      if pixel != MaterialEmptySpace {
        var position := Scale(pixelSize, Vec2(x as real + 0.5, y as real + 0.5));
        assert position == PixelCenter(k, shape.width, pixelSize);
        center := Add(center, Scale(pixelMass, position));
        mass := mass + pixelMass;
      }
      x := x + 1;
    }
    FlatNextRow(y, shape.width, shape.height);
  }

  // ---------------------------------------------------------------------
  // The physics system's state
  // ---------------------------------------------------------------------

  /** The sum of 1 / mass over the sides of a contact that have a body. */
  function NormalMass(bodies: map<Entity, Body>, c: Contact): (r: real)
    requires forall e | e in bodies :: bodies[e].mass > 0.0
    ensures r >= 0.0
    ensures c.left in bodies || c.right in bodies ==> r > 0.0
    ensures c.left !in bodies && c.right !in bodies ==> r == 0.0
  {
    (if c.left in bodies then 1.0 / bodies[c.left].mass else 0.0) +
    (if c.right in bodies then 1.0 / bodies[c.right].mass else 0.0)
  }

  /** The velocity of the left side at the contact less that of the right
      side; a missing side contributes nothing. */
  function RelativeVelocity(bodies: map<Entity, Body>, positions: map<Entity, Vec2>, c: Contact): (r: Vec2)
    requires bodies.Keys <= positions.Keys
    ensures c.left !in bodies && c.right !in bodies ==> r == Zero
  {
    var fromLeft := if c.left in bodies then VelocityAt(bodies[c.left], positions[c.left], c.position) else Zero;
    var fromRight := if c.right in bodies then VelocityAt(bodies[c.right], positions[c.right], c.position) else Zero;
    Sub(fromLeft, fromRight)
  }

  /** glm::max(x, 0) */
  function PositivePart(x: real): (r: real)
    ensures r >= 0.0 && r >= x && (r == x || r == 0.0)
  {
    if x < 0.0 then 0.0 else x
  }

  /** The invariant the system keeps: every body has a transform and a
      positive mass, no body is registered under the invalid entity, and the
      left side of every contact is a body. */
  ghost predicate WorldValid(bodies: map<Entity, Body>, positions: map<Entity, Vec2>, contacts: seq<Contact>) {
    bodies.Keys <= positions.Keys &&
    (forall e | e in bodies :: bodies[e].mass > 0.0) &&
    InvalidEntity !in bodies &&
    (forall i | 0 <= i < |contacts| :: contacts[i].left in bodies)
  }

  /** The accumulator state after one solver update of contact c. */
  function SolvedContact(bodies: map<Entity, Body>, positions: map<Entity, Vec2>, c: Contact, dt: real, pixelSize: real): (r: Contact)
    requires bodies.Keys <= positions.Keys && (forall e | e in bodies :: bodies[e].mass > 0.0)
    requires c.left in bodies && dt > 0.0
    ensures AccumulatorsBounded(r)
    ensures r.(previousImpulse := c.previousImpulse, previousTangentImpulse := c.previousTangentImpulse) == c
  {
    var normalMass := NormalMass(bodies, c);
    var relative := RelativeVelocity(bodies, positions, c);
    var raw := (Dot(c.normal, relative) - 0.01 * PositivePart(c.depth - 0.5 * pixelSize) / dt) / normalMass;
    var cumulative := AccumulateNormal(c.previousImpulse, raw);
    var rawTangent := Dot(Tangent(c.normal), relative) / normalMass;
    var tangent := AccumulateTangent(c.previousTangentImpulse, rawTangent, cumulative);
    c.(previousImpulse := cumulative, previousTangentImpulse := tangent)
  }

  /** impulse_vec: the change of the normal accumulator along the normal
      plus the change of the tangent accumulator along the tangent. Unchanged
      accumulators give no impulse; from a new contact it is the impulse of
      the accumulators themselves. */
  function ContactImpulse(before: Contact, after: Contact): (r: Vec2)
    ensures (after.previousImpulse == before.previousImpulse &&
             after.previousTangentImpulse == before.previousTangentImpulse) ==> r == Zero
    ensures IsNew(before) ==>
            r == Add(Scale(after.previousImpulse, before.normal), Scale(after.previousTangentImpulse, Tangent(before.normal)))
  {
    var dn := after.previousImpulse - before.previousImpulse;
    var dtan := after.previousTangentImpulse - before.previousTangentImpulse;
    Add(Scale(dn, before.normal), Scale(dtan, Tangent(before.normal)))
  }

  /** Successive accumulator changes of one contact add up to the change from
      the first state to the last. */
  lemma ImpulsesTelescope(c0: Contact, c1: Contact, c2: Contact)
    requires c1.normal == c0.normal
    ensures Add(ContactImpulse(c0, c1), ContactImpulse(c1, c2)) == ContactImpulse(c0, c2)
  {
    var n, t := c0.normal, Tangent(c0.normal);
    var a0, a1, a2 := c0.previousImpulse, c1.previousImpulse, c2.previousImpulse;
    var b0, b1, b2 := c0.previousTangentImpulse, c1.previousTangentImpulse, c2.previousTangentImpulse;
    assert (a1 - a0) * n.x + (a2 - a1) * n.x == (a2 - a0) * n.x;
    assert (a1 - a0) * n.y + (a2 - a1) * n.y == (a2 - a0) * n.y;
    assert (b1 - b0) * t.x + (b2 - b1) * t.x == (b2 - b0) * t.x;
    assert (b1 - b0) * t.y + (b2 - b1) * t.y == (b2 - b0) * t.y;
  }

  /** The bodies after contact c applies the change from `before` to `after`
      of its accumulators: the left body (when present) receives the negated
      impulse, then the right body (when present) the impulse. */
  function Impulsed(bodies: map<Entity, Body>, positions: map<Entity, Vec2>, before: Contact, after: Contact): (r: map<Entity, Body>)
    requires bodies.Keys <= positions.Keys && (forall e | e in bodies :: bodies[e].mass > 0.0)
    ensures r.Keys == bodies.Keys
    ensures forall e | e in r :: r[e].mass == bodies[e].mass
    ensures forall e | e in r && e != before.left && e != before.right :: r[e] == bodies[e]
    ensures before.left in bodies && before.left != before.right ==>
            r[before.left] == ApplyImpulseAt(bodies[before.left], positions[before.left],
                                             Neg(ContactImpulse(before, after)), before.position)
    ensures before.right in bodies && before.left != before.right ==>
            r[before.right] == ApplyImpulseAt(bodies[before.right], positions[before.right],
                                              ContactImpulse(before, after), before.position)
    ensures before.left in bodies && before.left == before.right ==>
            r[before.left] == ApplyImpulseAt(ApplyImpulseAt(bodies[before.left], positions[before.left],
                                                            Neg(ContactImpulse(before, after)), before.position),
                                             positions[before.left], ContactImpulse(before, after), before.position)
  {
    var impulse := ContactImpulse(before, after);
    var afterLeft := if before.left in bodies
      then bodies[before.left := ApplyImpulseAt(bodies[before.left], positions[before.left], Neg(impulse), before.position)]
      else bodies;
    if before.right in afterLeft
      then afterLeft[before.right := ApplyImpulseAt(afterLeft[before.right], positions[before.right], impulse, before.position)]
      else afterLeft
  }

  /** A contact with the invalid entity on its right only moves its left
      body. */
  lemma PlaneContactMovesOneBody(bodies: map<Entity, Body>, positions: map<Entity, Vec2>, before: Contact, after: Contact)
    requires WorldValid(bodies, positions, [before]) && before.right == InvalidEntity
    ensures var r := Impulsed(bodies, positions, before, after);
            forall e | e in r && e != before.left :: r[e] == bodies[e]
  {
  }

  /** The momentum of a body. */
  function Momentum(b: Body): Vec2 {
    Scale(b.mass, b.velocity)
  }

  /** A contact between two distinct bodies leaves their total linear
      momentum unchanged, whatever its accumulators became. */
  lemma ContactConservesMomentum(bodies: map<Entity, Body>, positions: map<Entity, Vec2>, before: Contact, after: Contact)
    requires bodies.Keys <= positions.Keys && (forall e | e in bodies :: bodies[e].mass > 0.0)
    requires before.left in bodies && before.right in bodies && before.left != before.right
    ensures var r := Impulsed(bodies, positions, before, after);
            Add(Momentum(r[before.left]), Momentum(r[before.right])) ==
            Add(Momentum(bodies[before.left]), Momentum(bodies[before.right]))
  {
    MomentumConserved(bodies[before.left], bodies[before.right], positions[before.left], positions[before.right],
                      ContactImpulse(before, after), before.position);
  }

  // ---------------------------------------------------------------------
  // The solver as a function of the state
  // ---------------------------------------------------------------------

  /** What the solver updates: the bodies and the contact list. */
  datatype SolverState = SolverState(bodies: map<Entity, Body>, contacts: seq<Contact>)

  /** Two contact lists that differ only in their accumulators. */
  predicate SameGeometry(a: seq<Contact>, b: seq<Contact>) {
    |a| == |b| &&
    forall i | 0 <= i < |a| ::
      b[i].(previousImpulse := a[i].previousImpulse, previousTangentImpulse := a[i].previousTangentImpulse) == a[i]
  }

  /** The bodies only change velocity: same entities, same masses. */
  predicate SameBodies(a: map<Entity, Body>, b: map<Entity, Body>) {
    a.Keys == b.Keys && forall e | e in a :: b[e].mass == a[e].mass
  }

  /** One update of contact k: its accumulators are re-solved and bounded,
      and every other contact stays as it was. */
  function Step(s: SolverState, positions: map<Entity, Vec2>, k: nat, dt: real, pixelSize: real): (r: SolverState)
    requires WorldValid(s.bodies, positions, s.contacts) && k < |s.contacts| && dt > 0.0
    ensures WorldValid(r.bodies, positions, r.contacts)
    ensures SameBodies(s.bodies, r.bodies) && SameGeometry(s.contacts, r.contacts)
    ensures AccumulatorsBounded(r.contacts[k])
    ensures forall i | 0 <= i < |s.contacts| && i != k :: r.contacts[i] == s.contacts[i]
  {
    var after := SolvedContact(s.bodies, positions, s.contacts[k], dt, pixelSize);
    SolverState(Impulsed(s.bodies, positions, s.contacts[k], after), s.contacts[k := after])
  }

  /** One update moves only the bodies of its contact, and when those are
      two distinct bodies their total linear momentum is unchanged. */
  lemma StepMovesOnlyItsBodies(s: SolverState, positions: map<Entity, Vec2>, k: nat, dt: real, pixelSize: real)
    requires WorldValid(s.bodies, positions, s.contacts) && k < |s.contacts| && dt > 0.0
    ensures var r := Step(s, positions, k, dt, pixelSize);
            forall e | e in r.bodies && e != s.contacts[k].left && e != s.contacts[k].right :: r.bodies[e] == s.bodies[e]
    ensures var c, r := s.contacts[k], Step(s, positions, k, dt, pixelSize);
            c.right in s.bodies && c.left != c.right ==>
              Add(Momentum(r.bodies[c.left]), Momentum(r.bodies[c.right])) ==
              Add(Momentum(s.bodies[c.left]), Momentum(s.bodies[c.right]))
  {
    var c := s.contacts[k];
    if c.right in s.bodies && c.left != c.right {
      ContactConservesMomentum(s.bodies, positions, c, SolvedContact(s.bodies, positions, c, dt, pixelSize));
    }
  }

  /** The updates of contacts 0 .. n - 1, in order: those contacts end with
      bounded accumulators and the rest are untouched. */
  function Sweep(s: SolverState, positions: map<Entity, Vec2>, n: nat, dt: real, pixelSize: real): (r: SolverState)
    requires WorldValid(s.bodies, positions, s.contacts) && n <= |s.contacts| && dt > 0.0
    ensures WorldValid(r.bodies, positions, r.contacts)
    ensures SameBodies(s.bodies, r.bodies) && SameGeometry(s.contacts, r.contacts)
    ensures forall i | 0 <= i < n :: AccumulatorsBounded(r.contacts[i])
    ensures forall i | n <= i < |s.contacts| :: r.contacts[i] == s.contacts[i]
  {
    if n == 0 then s
    else
      var mid := Sweep(s, positions, n - 1, dt, pixelSize);
      Step(mid, positions, n - 1, dt, pixelSize)
  }

  lemma SweepStep(s: SolverState, positions: map<Entity, Vec2>, k: nat, dt: real, pixelSize: real)
    requires WorldValid(s.bodies, positions, s.contacts) && k < |s.contacts| && dt > 0.0
    ensures Sweep(s, positions, k + 1, dt, pixelSize) == Step(Sweep(s, positions, k, dt, pixelSize), positions, k, dt, pixelSize)
  {
  }

  /** p full sweeps over the contact list: after at least one, every
      contact's accumulators are bounded. */
  function Passes(s: SolverState, positions: map<Entity, Vec2>, p: nat, dt: real, pixelSize: real): (r: SolverState)
    requires WorldValid(s.bodies, positions, s.contacts) && dt > 0.0
    ensures WorldValid(r.bodies, positions, r.contacts)
    ensures SameBodies(s.bodies, r.bodies) && SameGeometry(s.contacts, r.contacts)
    ensures p > 0 ==> forall i | 0 <= i < |r.contacts| :: AccumulatorsBounded(r.contacts[i])
  {
    if p == 0 then s
    else
      var mid := Passes(s, positions, p - 1, dt, pixelSize);
      Sweep(mid, positions, |mid.contacts|, dt, pixelSize)
  }

  /** Two impulses that add up to `total`, applied one after the other, act
      as `total`; negated, as its negation. */
  lemma ComposeTo(body: Body, origin: Vec2, first: Vec2, second: Vec2, total: Vec2, at: Vec2)
    requires body.mass != 0.0 && Add(first, second) == total
    ensures ApplyImpulseAt(ApplyImpulseAt(body, origin, first, at), origin, second, at) == ApplyImpulseAt(body, origin, total, at)
    ensures ApplyImpulseAt(ApplyImpulseAt(body, origin, Neg(first), at), origin, Neg(second), at) == ApplyImpulseAt(body, origin, Neg(total), at)
  {
    ImpulsesCompose(body, origin, first, second, at);
    ImpulsesCompose(body, origin, Neg(first), Neg(second), at);
    assert Add(Neg(first), Neg(second)) == Neg(total);
  }

  /** The bodies `start` after contact c applied, in one go, the impulse of
      the change of its accumulators from c to `last`: negated to the left
      body, as it is to the right body; no other body changes. */
  function Received(start: map<Entity, Body>, positions: map<Entity, Vec2>, c: Contact, last: Contact): (r: map<Entity, Body>)
    requires c.left in start && c.right in start && c.left in positions && c.right in positions
    requires start[c.left].mass != 0.0 && start[c.right].mass != 0.0 && c.left != c.right
    ensures r.Keys == start.Keys
    ensures forall e | e in r && e != c.left && e != c.right :: r[e] == start[e]
  {
    start[c.left := ApplyImpulseAt(start[c.left], positions[c.left], Neg(ContactImpulse(c, last)), c.position)]
         [c.right := ApplyImpulseAt(start[c.right], positions[c.right], ContactImpulse(c, last), c.position)]
  }

  /** One more update of contact c, whose accumulators went from c to m and
      now go to `after`: bodies that had received the change from c to m
      have then received the change from c to `after`. */
  lemma UpdateAddsUp(start: map<Entity, Body>, positions: map<Entity, Vec2>, c: Contact, m: Contact, after: Contact)
    requires start.Keys <= positions.Keys && (forall e | e in start :: start[e].mass > 0.0)
    requires c.left in start && c.right in start && c.left != c.right
    requires m.normal == c.normal && m.position == c.position && m.left == c.left && m.right == c.right
    ensures Impulsed(Received(start, positions, c, m), positions, m, after) == Received(start, positions, c, after)
  {
    var first, second, total := ContactImpulse(c, m), ContactImpulse(m, after), ContactImpulse(c, after);
    ImpulsesTelescope(c, m, after);
    ComposeTo(start[c.left], positions[c.left], first, second, total, c.position);
    ComposeTo(start[c.right], positions[c.right], first, second, total, c.position);
  }

  /** The p-th pass over a single contact: if the bodies after p - 1 passes
      received the total change from c to the contact's state, the bodies
      after p passes received the total change to its new state. */
  lemma StepReceives(s: SolverState, positions: map<Entity, Vec2>, p: nat, dt: real, pixelSize: real,
                     mid: SolverState, r: SolverState)
    requires WorldValid(s.bodies, positions, s.contacts) && dt > 0.0 && |s.contacts| == 1 && p > 0
    requires s.contacts[0].right in s.bodies && s.contacts[0].left != s.contacts[0].right
    requires mid == Passes(s, positions, p - 1, dt, pixelSize) && r == Passes(s, positions, p, dt, pixelSize)
    requires mid.bodies == Received(s.bodies, positions, s.contacts[0], mid.contacts[0])
    ensures r.bodies == Received(s.bodies, positions, s.contacts[0], r.contacts[0])
  {
    LastPass(s, positions, p, dt, pixelSize);
    var m := mid.contacts[0];
    UpdateAddsUp(s.bodies, positions, s.contacts[0], m, SolvedContact(mid.bodies, positions, m, dt, pixelSize));
  }

  /** The inductive step: p - 1 passes added up, and so does one more. */
  lemma {:induction false} PassAddsUp(s: SolverState, positions: map<Entity, Vec2>, p: nat, dt: real, pixelSize: real,
                                      mid: SolverState, r: SolverState)
    requires WorldValid(s.bodies, positions, s.contacts) && dt > 0.0 && |s.contacts| == 1 && p > 0
    requires s.contacts[0].right in s.bodies && s.contacts[0].left != s.contacts[0].right
    requires mid == Passes(s, positions, p - 1, dt, pixelSize) && r == Passes(s, positions, p, dt, pixelSize)
    ensures r.bodies == Received(s.bodies, positions, s.contacts[0], r.contacts[0])
    decreases p, 0
  {
    AppliedImpulsesAddUp(s, positions, p - 1, dt, pixelSize);
    StepReceives(s, positions, p, dt, pixelSize, mid, r);
  }

  /** Before any pass the bodies received nothing. */
  lemma NothingReceived(bodies: map<Entity, Body>, positions: map<Entity, Vec2>, c: Contact)
    requires c.left in bodies && c.right in bodies && c.left in positions && c.right in positions
    requires bodies[c.left].mass != 0.0 && bodies[c.right].mass != 0.0 && c.left != c.right
    ensures Received(bodies, positions, c, c) == bodies
  {
    assert ContactImpulse(c, c) == Zero;
    assert Neg(Zero) == Zero;
    var l := ApplyImpulseAt(bodies[c.left], positions[c.left], Zero, c.position);
    var r := ApplyImpulseAt(bodies[c.right], positions[c.right], Zero, c.position);
    assert l == bodies[c.left] && r == bodies[c.right];
  }

  /** For a single contact between two distinct bodies, the impulses of all
      the updates of p passes add up: each body ends as if it had received,
      in one application, the impulse of the total change of the contact's
      accumulators (from a new contact, the impulse of its final
      accumulators), the left body negated. */
  lemma {:induction false} AppliedImpulsesAddUp(s: SolverState, positions: map<Entity, Vec2>, p: nat, dt: real, pixelSize: real)
    requires WorldValid(s.bodies, positions, s.contacts) && dt > 0.0 && |s.contacts| == 1
    requires s.contacts[0].right in s.bodies && s.contacts[0].left != s.contacts[0].right
    ensures var r := Passes(s, positions, p, dt, pixelSize);
            r.bodies == Received(s.bodies, positions, s.contacts[0], r.contacts[0])
    decreases p, 1
  {
    var c := s.contacts[0];
    if p == 0 {
      assert Passes(s, positions, 0, dt, pixelSize) == s;
      NothingReceived(s.bodies, positions, c);
    } else {
      PassAddsUp(s, positions, p, dt, pixelSize,
                 Passes(s, positions, p - 1, dt, pixelSize), Passes(s, positions, p, dt, pixelSize));
    }
  }


  /** With a single contact, a pass is one Step of it, and that contact keeps
      its geometry. */
  lemma LastPass(s: SolverState, positions: map<Entity, Vec2>, p: nat, dt: real, pixelSize: real)
    requires WorldValid(s.bodies, positions, s.contacts) && dt > 0.0 && |s.contacts| == 1 && p > 0
    ensures var mid := Passes(s, positions, p - 1, dt, pixelSize);
            Passes(s, positions, p, dt, pixelSize) == Step(mid, positions, 0, dt, pixelSize) &&
            |mid.contacts| == 1 && mid.contacts[0].normal == s.contacts[0].normal &&
            mid.contacts[0].position == s.contacts[0].position &&
            mid.contacts[0].left == s.contacts[0].left && mid.contacts[0].right == s.contacts[0].right &&
            mid.bodies.Keys == s.bodies.Keys
  {
    var mid := Passes(s, positions, p - 1, dt, pixelSize);
    assert Sweep(mid, positions, 0, dt, pixelSize) == mid;
  }



  /** PhysicsSystem: the bodies and transforms of the registry, the contact
      list and the mass cache. */
  class PhysicsSystem {
    var bodies: map<Entity, Body>
    const positions: map<Entity, Vec2>
    var contacts: seq<Contact>
    var massValues: map<Id, MassValues>
    const pixelSize: real
    const pixelArea: real

    ghost predicate Valid()
      reads this
    {
      WorldValid(bodies, positions, contacts) &&
      forall i | 0 <= i < |contacts| :: AccumulatorsBounded(contacts[i])
    }

    constructor (bodies: map<Entity, Body>, positions: map<Entity, Vec2>, pixelSize: real, pixelArea: real)
      requires WorldValid(bodies, positions, [])
      ensures Valid() && contacts == [] && massValues == map[]
      ensures this.bodies == bodies && this.positions == positions
      ensures this.pixelSize == pixelSize && this.pixelArea == pixelArea
    {
      this.bodies := bodies;
      this.positions := positions;
      this.pixelSize := pixelSize;
      this.pixelArea := pixelArea;
      contacts := [];
      massValues := map[];
    }

    /** GetMassValues: the cached entry when the shape id has one; otherwise
        the scan's result, which is inserted and returned. */
    method GetMassValues(shape: Shape) returns (r: MassValues)
      requires WellFormed(shape)
      modifies this
      ensures shape.id in old(massValues) ==> r == old(massValues)[shape.id] && massValues == old(massValues)
      ensures shape.id !in old(massValues) ==>
        r == MassValuesOf(shape, pixelSize, pixelArea) && massValues == old(massValues)[shape.id := r]
      ensures bodies == old(bodies) && contacts == old(contacts)
    {
      if shape.id in massValues {
        r := massValues[shape.id];
      } else {
        r := ComputeMassValues(shape, pixelSize, pixelArea);
        massValues := massValues[shape.id := r];
      }
    }

    /** The narrow phase of one broadphase pair appends at most two new
        contacts, each between the pair's entities. */
    method AddPairContacts(left: Entity, right: Entity, probe: (nat, nat) -> Probe)
      requires Valid() && left in bodies
      modifies this
      ensures Valid()
      ensures |old(contacts)| <= |contacts| <= |old(contacts)| + 2
      ensures contacts[..|old(contacts)|] == old(contacts)
      ensures forall c | c in contacts[|old(contacts)|..] :: c.left == left && c.right == right && IsNew(c) && c.depth >= 0.0
      ensures bodies == old(bodies) && massValues == old(massValues)
    {
      var added := MarchPair(left, right, probe);
      contacts := contacts + added;
      assert contacts[|old(contacts)|..] == added;
    }

    /** One boundary plane appends at most one new contact per non-empty
        pixel of the body's shape, each between the body and the invalid
        entity, and none when the body's radius does not reach the plane. */
    method AddPlaneContacts(entity: Entity, shape: Shape, origin: real, projectedCenter: real, radius: real,
                            pixelRadius: real, normal: Vec2, projected: (nat, nat) -> real, at: (nat, nat) -> Vec2)
      requires Valid() && entity in bodies && WellFormed(shape)
      modifies this
      ensures Valid()
      ensures |old(contacts)| <= |contacts| <= |old(contacts)| + FilledCount(shape.image, |shape.image|)
      ensures contacts[..|old(contacts)|] == old(contacts)
      ensures forall c | c in contacts[|old(contacts)|..] ::
        c.left == entity && c.right == InvalidEntity && IsNew(c) && c.depth >= 0.0
      ensures projectedCenter - radius > origin ==> contacts == old(contacts)
      ensures bodies == old(bodies) && massValues == old(massValues)
    {
      var added := PlaneContacts(entity, shape, origin, projectedCenter, radius, pixelRadius, normal, projected, at);
      contacts := contacts + added;
      assert contacts[|old(contacts)|..] == added;
    }

    /** One solver update of contact k: the state becomes Step of the old
        state. Contact k may be one the current pass has not reached, so only
        the registry invariant is required of the contact list. */
    method SolveContact(k: nat, dt: real)
      requires WorldValid(bodies, positions, contacts) && k < |contacts| && dt > 0.0
      modifies this
      ensures SolverState(bodies, contacts) == Step(SolverState(old(bodies), old(contacts)), positions, k, dt, pixelSize)
      ensures massValues == old(massValues)
    {
      var before := contacts[k];
      var after := SolvedContact(bodies, positions, before, dt, pixelSize);
      bodies := Impulsed(bodies, positions, before, after);
      contacts := contacts[k := after];
    }

    /** The solver: SolverIterations passes over every contact, in list
        order. The new state is Passes of the old one. */
    method Solve(dt: real)
      requires Valid() && dt > 0.0
      modifies this
      ensures Valid()
      ensures SolverState(bodies, contacts) ==
              Passes(SolverState(old(bodies), old(contacts)), positions, SolverIterations, dt, pixelSize)
      ensures massValues == old(massValues)
    {
      ghost var start := SolverState(bodies, contacts);
      var pass := 0;
      while pass < SolverIterations
        invariant 0 <= pass <= SolverIterations
        invariant Valid() && massValues == old(massValues)
        invariant SolverState(bodies, contacts) == Passes(start, positions, pass, dt, pixelSize)
      {
        ghost var previous := SolverState(bodies, contacts);
        SolvePass(dt);
        assert Passes(start, positions, pass + 1, dt, pixelSize) == Sweep(previous, positions, |previous.contacts|, dt, pixelSize);
        pass := pass + 1;
      }
    }

    /** The state is that of the first k updates of a pass from `start`. */
    ghost predicate SweptTo(start: SolverState, k: nat, dt: real)
      reads this
    {
      WorldValid(start.bodies, positions, start.contacts) && dt > 0.0 &&
      k <= |contacts| == |start.contacts| &&
      SolverState(bodies, contacts) == Sweep(start, positions, k, dt, pixelSize)
    }

    /** The update of contact k extends the pass by one contact. */
    method SolveNext(ghost start: SolverState, k: nat, dt: real)
      requires SweptTo(start, k, dt) && k < |contacts|
      modifies this
      ensures SweptTo(start, k + 1, dt) && massValues == old(massValues)
    {
      SolveContact(k, dt);
      SweepStep(start, positions, k, dt, pixelSize);
    }

    /** One pass of the solver: every contact once, in list order. */
    method SolvePass(dt: real)
      requires WorldValid(bodies, positions, contacts) && dt > 0.0
      modifies this
      ensures Valid()
      ensures SolverState(bodies, contacts) == Sweep(SolverState(old(bodies), old(contacts)), positions, |old(contacts)|, dt, pixelSize)
      ensures massValues == old(massValues)
    {
      ghost var start := SolverState(bodies, contacts);
      var k := 0;
      while k < |contacts|
        invariant SweptTo(start, k, dt) && massValues == old(massValues)
      {
        SolveNext(start, k, dt);
        k := k + 1;
      }
    }

    /** The end of the solver stage: the passes, then m_contacts.clear(). */
    method SolveAndClear(dt: real)
      requires Valid() && dt > 0.0
      modifies this
      ensures Valid() && contacts == []
      ensures bodies == Passes(SolverState(old(bodies), old(contacts)), positions, SolverIterations, dt, pixelSize).bodies
      ensures massValues == old(massValues)
    {
      Solve(dt);
      contacts := [];
    }
  }
}
