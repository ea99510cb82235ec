/** The uniform-grid broadphase (engine/Broadphase.cpp). Bodies are appended
    to every cell their bounding square touches; pairs of bodies that share a
    cell and pass the overlap test are collected, with the lower entity first,
    then sorted and de-duplicated. */
module SpatialHash {
  import opened Ids
  import opened Vectors

  /** c_CellSize */
  const CellSize: real := 8.0

  /** entt::entity: a u32 handle, ordered by value. */
  type Entity = U32

  /** A cell index (glm::ivec2). */
  datatype CellKey = CellKey(x: int, y: int)

  /** std::pair<entt::entity, entt::entity>. */
  datatype EntityPair = EntityPair(first: Entity, second: Entity)

  /** ToCellSpace: floor division of each coordinate by the cell size. */
  function ToCellSpace(pos: Vec2): (r: CellKey)
    ensures r.x as real * CellSize <= pos.x < (r.x + 1) as real * CellSize
    ensures r.y as real * CellSize <= pos.y < (r.y + 1) as real * CellSize
  {
    CellKey((pos.x / CellSize).Floor, (pos.y / CellSize).Floor)
  }

  /** The cell lies in the rectangle of cells from `start` to `end`, both
      inclusive. */
  predicate InRect(k: CellKey, start: CellKey, end: CellKey) {
    start.x <= k.x <= end.x && start.y <= k.y <= end.y
  }

  /** The list a cell holds, empty for a cell that has not been created. */
  function Lookup(cells: map<CellKey, seq<Entity>>, k: CellKey): seq<Entity> {
    if k in cells then cells[k] else []
  }

  /** Cell k comes before (x, y) in row-major order. */
  predicate Visited(k: CellKey, y: int, x: int) {
    k.y < y || (k.y == y && k.x < x)
  }

  /** The cells of the rectangle visited so far have been created if
      missing and have `entity` appended; every other cell is as before. */
  ghost predicate Filled(before: map<CellKey, seq<Entity>>, after: map<CellKey, seq<Entity>>, entity: Entity,
                         start: CellKey, end: CellKey, y: int, x: int) {
    (forall k :: k in after <==> k in before || (InRect(k, start, end) && Visited(k, y, x))) &&
    (forall k | k in after ::
      after[k] == Lookup(before, k) + (if InRect(k, start, end) && Visited(k, y, x) then [entity] else []))
  }

  lemma FilledStep(before: map<CellKey, seq<Entity>>, after: map<CellKey, seq<Entity>>, entity: Entity,
                   start: CellKey, end: CellKey, y: int, x: int)
    requires Filled(before, after, entity, start, end, y, x)
    requires start.x <= x <= end.x && start.y <= y <= end.y
    ensures Filled(before, after[CellKey(x, y) := Lookup(after, CellKey(x, y)) + [entity]], entity, start, end, y, x + 1)
  {
    var key := CellKey(x, y);
    var next := after[key := Lookup(after, key) + [entity]];
    assert !Visited(key, y, x) && Visited(key, y, x + 1);
    forall k | k in next
      ensures next[k] == Lookup(before, k) + (if InRect(k, start, end) && Visited(k, y, x + 1) then [entity] else [])
    {
      if k != key {
        assert Visited(k, y, x + 1) == Visited(k, y, x);
      }
    }
  }

  lemma FilledRow(before: map<CellKey, seq<Entity>>, after: map<CellKey, seq<Entity>>, entity: Entity,
                  start: CellKey, end: CellKey, y: int, x: int)
    requires Filled(before, after, entity, start, end, y, x)
    requires start.x <= x && (start.x <= end.x ==> x == end.x + 1)
    ensures Filled(before, after, entity, start, end, y + 1, start.x)
  {
    forall k | InRect(k, start, end)
      ensures Visited(k, y, x) == Visited(k, y + 1, start.x)
    {
    }
  }

  lemma FilledAll(before: map<CellKey, seq<Entity>>, after: map<CellKey, seq<Entity>>, entity: Entity,
                  start: CellKey, end: CellKey, y: int)
    requires Filled(before, after, entity, start, end, y, start.x)
    requires start.y <= y && (start.y <= end.y ==> y == end.y + 1)
    ensures forall k :: k in after <==> k in before || InRect(k, start, end)
    ensures forall k | k in after :: after[k] == Lookup(before, k) + (if InRect(k, start, end) then [entity] else [])
  {
    forall k | InRect(k, start, end)
      ensures Visited(k, y, start.x)
    {
    }
  }


  /** The pair with the lower entity first. */
  function Normalize(a: Entity, b: Entity): (r: EntityPair)
    ensures r.first <= r.second
    ensures r == EntityPair(a, b) || r == EntityPair(b, a)
    ensures {r.first, r.second} == {a, b}
  {
    if a < b then EntityPair(a, b) else EntityPair(b, a)
  }

  /** Lexicographic order of std::pair. */
  predicate Less(p: EntityPair, q: EntityPair) {
    p.first < q.first || (p.first == q.first && p.second < q.second)
  }

  predicate LessEq(p: EntityPair, q: EntityPair) {
    Less(p, q) || p == q
  }

  predicate Sorted(s: seq<EntityPair>) {
    forall i, j :: 0 <= i < j < |s| ==> LessEq(s[i], s[j])
  }

  predicate StrictlySorted(s: seq<EntityPair>) {
    forall i, j :: 0 <= i < j < |s| ==> Less(s[i], s[j])
  }

  function Elements(s: seq<EntityPair>): set<EntityPair> {
    set p | p in s
  }

  /** A strictly sorted list holds no pair twice. */
  lemma StrictlySortedIsUnique(s: seq<EntityPair>)
    requires StrictlySorted(s)
    ensures forall i, j :: 0 <= i < j < |s| ==> s[i] != s[j]
    ensures |Elements(s)| == |s|
  {
    if |s| > 0 {
      var t := s[..|s| - 1];
      assert StrictlySorted(t);
      StrictlySortedIsUnique(t);
      assert s == t + [s[|s| - 1]];
      assert s[|s| - 1] !in t by {
        forall i | 0 <= i < |t| ensures t[i] != s[|s| - 1] {
          assert Less(s[i], s[|s| - 1]);
        }
      }
      assert Elements(s) == Elements(t) + {s[|s| - 1]};
    }
  }

  /** Two strictly sorted lists with the same elements are equal: the sorted,
      de-duplicated output is determined by the set of pairs found. */
  lemma {:induction false} StrictlySortedUniqueRepresentation(s: seq<EntityPair>, t: seq<EntityPair>)
    requires StrictlySorted(s) && StrictlySorted(t) && Elements(s) == Elements(t)
    ensures s == t
    decreases |s|
  {
    StrictlySortedIsUnique(s);
    StrictlySortedIsUnique(t);
    if |s| > 0 {
      assert s[0] in Elements(t);
      assert t[0] in Elements(s);
      var i :| 0 <= i < |t| && t[i] == s[0];
      var j :| 0 <= j < |s| && s[j] == t[0];
      assert LessEq(t[0], t[i]) && LessEq(s[0], s[j]);
      assert s[0] == t[0];
      assert Elements(s[1..]) == Elements(t[1..]) by {
        forall p ensures p in Elements(s[1..]) <==> p in Elements(t[1..]) {
          if p in Elements(s[1..]) {
            var i :| 1 <= i < |s| && s[i] == p;
            assert Less(s[0], p);
            assert p in Elements(t);
          }
          if p in Elements(t[1..]) {
            var i :| 1 <= i < |t| && t[i] == p;
            assert Less(t[0], p);
            assert p in Elements(s);
          }
        }
      }
      StrictlySortedUniqueRepresentation(s[1..], t[1..]);
      assert s == [s[0]] + s[1..] && t == [t[0]] + t[1..];
    }
  }

  /** The normalised pairs of entries `a < b` of one cell's list that pass the
      overlap test, restricted to the positions the collection loop has
      visited before reaching (i, j). */
  ghost function PairsBefore(d: seq<Entity>, overlaps: (Entity, Entity) -> bool, i: int, j: int): set<EntityPair> {
    set a, b | 0 <= a < b < |d| && (a < i || (a == i && b < j)) && overlaps(d[a], d[b]) :: Normalize(d[a], d[b])
  }

  /** All pairs one cell contributes. */
  ghost function CellPairs(d: seq<Entity>, overlaps: (Entity, Entity) -> bool): (r: set<EntityPair>)
    ensures forall a, b | 0 <= a < b < |d| && overlaps(d[a], d[b]) :: Normalize(d[a], d[b]) in r
    ensures forall p | p in r :: p.first <= p.second
  {
    PairsBefore(d, overlaps, |d|, 0)
  }

  /** All pairs the cells with the given keys contribute. */
  ghost function PairsOf(cells: map<CellKey, seq<Entity>>, keys: set<CellKey>, overlaps: (Entity, Entity) -> bool): set<EntityPair>
    requires keys <= cells.Keys
  {
    set k, p | k in keys && p in CellPairs(cells[k], overlaps) :: p
  }

  /** Soundness and completeness of the collected set: a pair is found iff
      two entries a < b of one cell's list pass the overlap test and the pair
      is their normalisation. */
  lemma PairsOfCharacterised(cells: map<CellKey, seq<Entity>>, overlaps: (Entity, Entity) -> bool, p: EntityPair)
    ensures p in PairsOf(cells, cells.Keys, overlaps) <==>
      exists k, a, b :: k in cells && 0 <= a < b < |cells[k]| && overlaps(cells[k][a], cells[k][b]) &&
        p == Normalize(cells[k][a], cells[k][b])
  {
    if p in PairsOf(cells, cells.Keys, overlaps) {
      var k :| k in cells && p in CellPairs(cells[k], overlaps);
      var a, b :| 0 <= a < b < |cells[k]| && overlaps(cells[k][a], cells[k][b]) && p == Normalize(cells[k][a], cells[k][b]);
    }
    forall k, a, b | k in cells && 0 <= a < b < |cells[k]| && overlaps(cells[k][a], cells[k][b])
      ensures Normalize(cells[k][a], cells[k][b]) in PairsOf(cells, cells.Keys, overlaps)
    {
      assert Normalize(cells[k][a], cells[k][b]) in CellPairs(cells[k], overlaps);
    }
  }

  lemma ElementsAppend(s: seq<EntityPair>, x: EntityPair)
    ensures Elements(s + [x]) == Elements(s) + {x}
  {
  }

  /** One more visited position (i, j) adds its pair exactly when it passes
      the overlap test. */
  lemma PairsStep(d: seq<Entity>, overlaps: (Entity, Entity) -> bool, i: int, j: int)
    requires 0 <= i < j < |d|
    ensures PairsBefore(d, overlaps, i, j + 1) ==
      PairsBefore(d, overlaps, i, j) + (if overlaps(d[i], d[j]) then {Normalize(d[i], d[j])} else {})
  {
  }

  /** Finishing row i is the same as starting row i + 1. */
  lemma PairsRowEnd(d: seq<Entity>, overlaps: (Entity, Entity) -> bool, i: int)
    requires 0 <= i < |d|
    ensures PairsBefore(d, overlaps, i, |d|) == PairsBefore(d, overlaps, i + 1, i + 2)
  {
    forall p ensures p in PairsBefore(d, overlaps, i, |d|) <==> p in PairsBefore(d, overlaps, i + 1, i + 2) {
      if p in PairsBefore(d, overlaps, i + 1, i + 2) {
        var a, b :| 0 <= a < b < |d| && (a < i + 1 || (a == i + 1 && b < i + 2)) && overlaps(d[a], d[b]) && p == Normalize(d[a], d[b]);
        assert a <= i;
      }
    }
  }

  /** Before the first row nothing is collected; after the last row the
      whole cell is. */
  lemma PairsEnds(d: seq<Entity>, overlaps: (Entity, Entity) -> bool)
    ensures PairsBefore(d, overlaps, 0, 1) == {}
    ensures |d| > 0 ==> PairsBefore(d, overlaps, |d| - 1, |d|) == CellPairs(d, overlaps)
  {
    if |d| > 0 {
      forall p ensures p in PairsBefore(d, overlaps, |d| - 1, |d|) <==> p in CellPairs(d, overlaps) {
        if p in CellPairs(d, overlaps) {
          var a, b :| 0 <= a < b < |d| && overlaps(d[a], d[b]) && p == Normalize(d[a], d[b]);
          assert a < |d| - 1;
        }
      }
    }
  }

  /** Taking one more cell adds that cell's pairs. */
  lemma PairsOfStep(cells: map<CellKey, seq<Entity>>, done: set<CellKey>, k: CellKey, overlaps: (Entity, Entity) -> bool)
    requires done <= cells.Keys && k in cells
    ensures PairsOf(cells, done + {k}, overlaps) == PairsOf(cells, done, overlaps) + CellPairs(cells[k], overlaps)
  {
    forall p | p in CellPairs(cells[k], overlaps) ensures p in PairsOf(cells, done + {k}, overlaps) {
      assert k in done + {k};
    }
  }

  /** std::pair's operator<= over ints is a total order. */
  lemma LessEqTotal(p: EntityPair, q: EntityPair)
    ensures LessEq(p, q) || LessEq(q, p)
  {
  }

  /** `sorted` with x inserted before the first element not below it. */
  function Insert(sorted: seq<EntityPair>, x: EntityPair): (r: seq<EntityPair>)
    requires Sorted(sorted)
    ensures Sorted(r)
    ensures multiset(r) == multiset(sorted) + multiset{x}
    decreases |sorted|
  {
    if |sorted| == 0 then [x]
    else if LessEq(x, sorted[0]) then
      HeadFirst(sorted, x);
      [x] + sorted
    else
      var rest := Insert(sorted[1..], x);
      InsertedAfterHead(sorted, x, rest);
      [sorted[0]] + rest
  }

  /** x not above the head of a sorted list may go in front of it. */
  lemma HeadFirst(sorted: seq<EntityPair>, x: EntityPair)
    requires Sorted(sorted) && |sorted| > 0 && LessEq(x, sorted[0])
    ensures Sorted([x] + sorted)
    ensures multiset([x] + sorted) == multiset(sorted) + multiset{x}
  {
  }

  /** x above the head: the head stays first, before the sorted rest with x
      in it. */
  lemma InsertedAfterHead(sorted: seq<EntityPair>, x: EntityPair, rest: seq<EntityPair>)
    requires Sorted(sorted) && |sorted| > 0 && !LessEq(x, sorted[0])
    requires Sorted(rest) && multiset(rest) == multiset(sorted[1..]) + multiset{x}
    ensures Sorted([sorted[0]] + rest)
    ensures multiset([sorted[0]] + rest) == multiset(sorted) + multiset{x}
  {
    forall i | 0 <= i < |rest| ensures LessEq(sorted[0], rest[i]) {
      assert rest[i] in multiset(rest);
      if rest[i] != x {
        assert rest[i] in multiset(sorted[1..]);
        var j :| 0 <= j < |sorted[1..]| && sorted[1..][j] == rest[i];
        assert sorted[j + 1] == rest[i];
      } else {
        LessEqTotal(x, sorted[0]);
      }
    }
    assert sorted == [sorted[0]] + sorted[1..];
  }

  /** std::sort on the collected pairs. */
  method SortPairs(s: seq<EntityPair>) returns (r: seq<EntityPair>)
    ensures Sorted(r) && multiset(r) == multiset(s)
  {
    r := [];
    var i := 0;
    while i < |s|
      invariant 0 <= i <= |s|
      invariant Sorted(r) && multiset(r) == multiset(s[..i])
    {
      r := Insert(r, s[i]);
      assert s[..i + 1] == s[..i] + [s[i]];
      i := i + 1;
    }
    assert s[..i] == s;
  }

  /** std::unique followed by erase: keep the first of every run of equal
      adjacent pairs. On a sorted list the result is strictly sorted and has
      the same elements. */
  method Unique(s: seq<EntityPair>) returns (r: seq<EntityPair>)
    requires Sorted(s)
    ensures StrictlySorted(r) && Elements(r) == Elements(s)
  {
    r := [];
    var i := 0;
    while i < |s|
      invariant 0 <= i <= |s|
      invariant StrictlySorted(r) && Elements(r) == Elements(s[..i])
      invariant i > 0 <==> |r| > 0
      invariant i > 0 ==> r[|r| - 1] == s[i - 1]
    {
      ElementsAppend(s[..i], s[i]);
      assert s[..i + 1] == s[..i] + [s[i]];
      if i == 0 || s[i] != s[i - 1] {
        if i > 0 {
          assert Less(r[|r| - 1], s[i]) by { assert LessEq(s[i - 1], s[i]); }
          assert forall m | 0 <= m < |r| :: Less(r[m], s[i]) by {
            forall m | 0 <= m < |r| ensures Less(r[m], s[i]) {
              if m < |r| - 1 {
                assert Less(r[m], r[|r| - 1]);
              }
            }
          }
        }
        ElementsAppend(r, s[i]);
        r := r + [s[i]];
      } else {
        assert s[i] in Elements(r) by { assert r[|r| - 1] == s[i]; }
      }
      i := i + 1;
    }
    assert s[..i] == s;
  }

  /** Broadphase. `intersections` is m_intersections_cache. */
  class Broadphase {
    var cells: map<CellKey, seq<Entity>>
    var intersections: seq<EntityPair>

    constructor ()
      ensures cells == map[] && intersections == []
    {
      cells := map[];
      intersections := [];
    }

    /** AddDynamic: append the entity once to every cell from
        ToCellSpace(position - radius) to ToCellSpace(position + radius) on
        both axes, creating missing cells; no other cell changes. The radius
        (half the diagonal of the shape's size in metres) is a parameter. */
    method AddDynamic(entity: Entity, position: Vec2, radius: real)
      modifies this
      ensures var start := ToCellSpace(Sub(position, Vec2(radius, radius)));
              var end := ToCellSpace(Add(position, Vec2(radius, radius)));
              (forall k :: k in cells <==> k in old(cells) || InRect(k, start, end)) &&
              (forall k | k in cells :: cells[k] == Lookup(old(cells), k) + (if InRect(k, start, end) then [entity] else []))
      ensures intersections == old(intersections)
    {
      var start := ToCellSpace(Sub(position, Vec2(radius, radius)));
      var end := ToCellSpace(Add(position, Vec2(radius, radius)));
      FillRect(entity, start, end);
    }

    /** The two nested loops of AddDynamic over the cell rectangle. */
    method FillRect(entity: Entity, start: CellKey, end: CellKey)
      modifies this
      ensures forall k :: k in cells <==> k in old(cells) || InRect(k, start, end)
      ensures forall k | k in cells :: cells[k] == Lookup(old(cells), k) + (if InRect(k, start, end) then [entity] else [])
      ensures intersections == old(intersections)
    {
      var y := start.y;
      while y <= end.y
        invariant start.y <= y && (start.y <= end.y ==> y <= end.y + 1)
        invariant Filled(old(cells), cells, entity, start, end, y, start.x)
        invariant intersections == old(intersections)
      {
        FillRow(old(cells), entity, start, end, y);
        y := y + 1;
      }
      FilledAll(old(cells), cells, entity, start, end, y);
    }

    /** The inner loop of AddDynamic: one row of the rectangle. */
    method FillRow(ghost before: map<CellKey, seq<Entity>>, entity: Entity, start: CellKey, end: CellKey, y: int)
      requires start.y <= y <= end.y
      requires Filled(before, cells, entity, start, end, y, start.x)
      modifies this
      ensures Filled(before, cells, entity, start, end, y + 1, start.x)
      ensures intersections == old(intersections)
    {
      var x := start.x;
      while x <= end.x
        invariant start.x <= x && (start.x <= end.x ==> x <= end.x + 1)
        invariant Filled(before, cells, entity, start, end, y, x)
        invariant intersections == old(intersections)
      {
        var key := CellKey(x, y);
        var list := if key in cells then cells[key] else [];
        FilledStep(before, cells, entity, start, end, y, x);
        cells := cells[key := list + [entity]];
        x := x + 1;
      }
      FilledRow(before, cells, entity, start, end, y, x);
    }

    /** GetPotentiallyIntersections: collect the normalised pairs of every
        cell that pass the overlap test, empty every cell (keeping its key),
        then sort and de-duplicate. The result is the strictly sorted list of
        exactly the pairs found, whatever the cache held before and in
        whatever order the cells are visited. */
    method GetPotentiallyIntersections(overlaps: (Entity, Entity) -> bool) returns (result: seq<EntityPair>)
      modifies this
      ensures cells.Keys == old(cells).Keys && forall k | k in cells :: cells[k] == []
      ensures result == intersections
      ensures StrictlySorted(result)
      ensures Elements(result) == PairsOf(old(cells), old(cells).Keys, overlaps)
      ensures forall p | p in result :: p.first <= p.second
    {
      CollectAll(overlaps);
      var sorted := SortPairs(intersections);
      assert Elements(sorted) == Elements(intersections) by {
        forall p ensures p in sorted <==> p in intersections {
          assert p in sorted <==> p in multiset(sorted);
          assert p in intersections <==> p in multiset(intersections);
        }
      }
      intersections := Unique(sorted);
      result := intersections;
      assert forall p | p in result :: p in PairsOf(old(cells), old(cells).Keys, overlaps);
    }

    /** The collecting loop of GetPotentiallyIntersections: every cell's
        pairs are appended to the cache and the cell is emptied. */
    method CollectAll(overlaps: (Entity, Entity) -> bool)
      modifies this
      ensures cells.Keys == old(cells).Keys && forall k | k in cells :: cells[k] == []
      ensures Elements(intersections) == PairsOf(old(cells), old(cells).Keys, overlaps)
    {
      intersections := [];
      var todo := cells.Keys;
      while todo != {}
        invariant CollectedAllBut(old(cells), todo, overlaps)
        decreases todo
      {
        todo := CollectNext(old(cells), todo, overlaps);
      }
    }

    /** Every cell of `original` outside `todo` has had its pairs appended
        and is empty; the cells in `todo` are untouched. */
    ghost predicate CollectedAllBut(original: map<CellKey, seq<Entity>>, todo: set<CellKey>,
                                    overlaps: (Entity, Entity) -> bool)
      reads this
    {
      todo <= original.Keys && cells.Keys == original.Keys &&
      (forall k | k in todo :: cells[k] == original[k]) &&
      (forall k | k in original.Keys - todo :: cells[k] == []) &&
      Elements(intersections) == PairsOf(original, original.Keys - todo, overlaps)
    }

    /** One iteration of the collecting loop: one cell of `todo`. */
    method CollectNext(ghost original: map<CellKey, seq<Entity>>, todo: set<CellKey>,
                       overlaps: (Entity, Entity) -> bool) returns (rest: set<CellKey>)
      requires todo != {} && CollectedAllBut(original, todo, overlaps)
      modifies this
      ensures rest < todo && CollectedAllBut(original, rest, overlaps)
    {
      ghost var done := original.Keys - todo;
      var key :| key in todo;
      var found := CollectCell(cells[key], overlaps);
      PairsOfStep(original, done, key, overlaps);
      intersections := intersections + found;
      cells := cells[key := []];
      rest := todo - {key};
      assert original.Keys - rest == done + {key};
    }
  }

  /** The pairs one cell's inner double loop pushes, in push order. */
  method CollectCell(d: seq<Entity>, overlaps: (Entity, Entity) -> bool) returns (found: seq<EntityPair>)
    ensures Elements(found) == CellPairs(d, overlaps)
  {
    found := [];
    PairsEnds(d, overlaps);
    if |d| == 0 {
      return;
    }
    var i := 0;
    while i < |d| - 1
      invariant 0 <= i <= |d| - 1
      invariant Elements(found) == PairsBefore(d, overlaps, i, i + 1)
    {
      var j := i + 1;
      while j < |d|
        invariant i + 1 <= j <= |d|
        invariant Elements(found) == PairsBefore(d, overlaps, i, j)
      {
        PairsStep(d, overlaps, i, j);
        if overlaps(d[i], d[j]) {
          ElementsAppend(found, Normalize(d[i], d[j]));
          found := found + [Normalize(d[i], d[j])];
        }
        j := j + 1;
      }
      PairsRowEnd(d, overlaps, i);
      i := i + 1;
    }
    assert PairsBefore(d, overlaps, i, i + 1) == PairsBefore(d, overlaps, |d| - 1, |d|);
  }
}
