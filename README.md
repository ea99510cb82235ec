# sdf_physics in Dafny

A model of the discrete core of sdf_physics. This is a 2D rigid-body engine
where every body is a raster of material pixels, and contacts are found with
the signed distance field of each raster. The model covers these parts:

- **ShapeSdf::Create.** It seeds two grids: one with the material pixels and
  one with the empty pixels. The two-pass eight-neighbour distance transform
  propagates each grid. The two results combine into a signed distance (≤ 0
  on material, ≥ 0 on empty space), which a 3x3 kernel then blurs. Modules:
  `SdfGrid` and `Sdf`.
- **Shapes and their store.** The row-major material raster (`Shapes`),
  typed ids and their generator (`Ids`), and the `ShapeManager` map from ids
  to shapes (`ShapeStore`).
- **The uniform-grid broadphase** (`SpatialHash`). Bodies are entered into
  every 8 m cell their bounding square touches. Every overlapping pair within
  a cell is emitted lower id first, and the list is then sorted and
  de-duplicated.
- **The physics step's bookkeeping** (`Physics`):
  - the per-shape mass cache;
  - how many contacts the narrow phase and the boundary planes may add;
  - the sequential-impulse accumulators (normal impulse clamped to ≤ 0, and
    tangent impulse clamped to ±0.2 times it);
  - the impulse deltas applied to the two bodies (the left body receives
    the negated impulse), and how over all passes they add up to the
    impulse of the final accumulators;
  - the emptying of the contact list.
- **Input.**
  - `Binds`: the 32-bit key of a binding, split into a 16-bit keyboard half
    and a 16-bit mouse half.
  - `InputState`: the key-state machine fed by the GLFW callbacks, the
    per-frame reset, and the `Has` decision table.
- **The debug line buffer** (`DebugDraw`).

Floating-point values are modelled as exact reals. The code's integer widths
are modelled where they matter:

- the u32 id counter, which wraps around;
- the i32 key of a binding, as a 32-bit two's complement bit pattern.

GLFW's codes come from GLFW's public header `glfw3.h`, which is not part of
this model. They are: key unknown −1, release 0, press 1, repeat 2,
`GLFW_KEY_LAST` = `GLFW_KEY_MENU` = 348, and `GLFW_MOUSE_BUTTON_LAST` = 7.

## Model

| member | source | states |
|---|---|---|
| Ids.Next | sdf_physics/util/TypeSafeId.hpp:35-37 | the u32 pre-increment: one more below 2^32−1, and the new value is then non-zero; it wraps to 0 at 2^32−1 |
| Ids.DefaultIdIsInvalid | sdf_physics/util/TypeSafeId.hpp:12-21 | a default-constructed id holds 0 and is not valid |
| Ids.ExplicitValueRoundTrip | sdf_physics/util/TypeSafeId.hpp:13-21 | Value returns what the explicit constructor stored; the id is valid iff that value is non-zero |
| Ids.Value | sdf_physics/util/TypeSafeId.hpp:15-17 | the explicit constructor applied to the value gives the id back |
| Ids.IsValid | sdf_physics/util/TypeSafeId.hpp:19-21 | an id is valid exactly when it differs from the default id |
| Ids.Equal | sdf_physics/util/TypeSafeId.hpp:22-24 | `==` holds exactly for identical ids |
| Ids.NotEqual | sdf_physics/util/TypeSafeId.hpp:25-27 | `!=` is the exact negation of `==` |
| Ids.IssueIsConsecutive | sdf_physics/util/TypeSafeId.hpp:35-38 | until the counter wraps, the i-th generated id is counter + i + 1 and is valid (a fresh generator starts at 1) |
| Ids.IssueIsDistinct | sdf_physics/util/TypeSafeId.hpp:35-38 | ids generated before the counter wraps are pairwise distinct |
| Ids.IdGenerator.constructor | sdf_physics/util/TypeSafeId.hpp:40 | the stored id starts at value 0 |
| Ids.IdGenerator.Generate | sdf_physics/util/TypeSafeId.hpp:35-38 | the counter is pre-incremented (with wrap-around) and the returned id holds the new value; below the wrap it is valid and one more than before |
| Shapes.FlatInBounds | sdf_physics/engine/shape/Shape.cpp:29-31 | an in-bounds pixel's index x + y·width lies in [0, width·height) |
| Shapes.FlatCoordinates | sdf_physics/engine/shape/Shape.cpp:29-31 | the pixel is recovered from its index: index % width = x, index / width = y |
| Shapes.FlatInjective | sdf_physics/engine/shape/Shape.cpp:29-31 | distinct in-bounds pixels have distinct indices |
| Shapes.FlatNextRow | sdf_physics/engine/shape/Shape.cpp:160-161 | the index after row y's last pixel is the first of row y + 1, and after the last row it is width·height |
| Shapes.Flat | sdf_physics/engine/shape/Shape.cpp:29-31 | the row-major index x + y·width; its range, inverse and injectivity are FlatInBounds, FlatCoordinates and FlatInjective |
| Shapes.GetPixelAt | sdf_physics/engine/shape/Shape.cpp:29-31 | the byte at the pixel's row-major index, which FlatInBounds keeps inside the image |
| Shapes.PixelAtIndex | sdf_physics/engine/shape/Shape.cpp:29-31 | every byte of the image is what GetPixelAt returns for pixel (i % width, i / width), an in-bounds pixel |
| Shapes.SetId | sdf_physics/engine/shape/Shape.cpp:53-55 | only the id changes |
| SdfGrid.SquaredDistance | sdf_physics/engine/shape/Shape.cpp:92-94 | the squared length of an offset is non-negative |
| SdfGrid.ZeroOnlyAtSeed | sdf_physics/engine/shape/Shape.cpp:92-94 | the squared length is 0 iff the offset is (0, 0) |
| SdfGrid.ZeroOnlyAtSeeds | sdf_physics/engine/shape/Shape.cpp:91 | with both sides at most 9998, a cell whose offset leads to a seed or into the sentinel region holds (0, 0) only if it is itself a seed |
| SdfGrid.SeededLeads | sdf_physics/engine/shape/Shape.cpp:160-170 | in a freshly seeded grid every offset leads to a seed or into the sentinel region |
| SdfGrid.RelaxKeeps | sdf_physics/engine/shape/Shape.cpp:112-144 | rewriting one cell with an improving, seed-leading offset keeps "every cell leads to a seed" and "no cell got farther" for the whole grid |
| SdfGrid.Grid.constructor | sdf_physics/engine/shape/Shape.cpp:98-101 | width·height cells, all holding the sentinel (9999, 9999) |
| SdfGrid.Grid.Get | sdf_physics/engine/shape/Shape.cpp:102-108 | an in-range cell's stored point; the sentinel for any index outside the grid |
| SdfGrid.Grid.Set | sdf_physics/engine/shape/Shape.cpp:109-111 | only cell x + y·width changes, to the given point |
| SdfGrid.Grid.Compare | sdf_physics/engine/shape/Shape.cpp:146-152 | the result is the point or the shifted neighbour; it changes only to something strictly closer, and a seed is never replaced |
| SdfGrid.Grid.CompareLeadsToSeed | sdf_physics/engine/shape/Shape.cpp:146-152 | a neighbour's offset, shifted by the step to it, still leads to a seed or into the sentinel region |
| SdfGrid.Grid.RelaxForward | sdf_physics/engine/shape/Shape.cpp:115-120 | the left, up, up-left and up-right comparisons rewrite only this cell, and improve it |
| SdfGrid.Grid.RelaxFromRight | sdf_physics/engine/shape/Shape.cpp:123-125 | the right comparison rewrites only this cell, and improves it |
| SdfGrid.Grid.RelaxBackward | sdf_physics/engine/shape/Shape.cpp:131-136 | the right, down, down-left and down-right comparisons rewrite only this cell, and improve it |
| SdfGrid.Grid.RelaxFromLeft | sdf_physics/engine/shape/Shape.cpp:139-141 | the left comparison rewrites only this cell, and improves it |
| SdfGrid.Grid.CompareNearSeed | sdf_physics/engine/shape/Shape.cpp:146-152 | when the compared neighbour is a seed, the result is at most the squared length of the step to it |
| SdfGrid.Grid.ForwardStep | sdf_physics/engine/shape/Shape.cpp:114-121 | one cell of the forward left-to-right sweep keeps both invariants and adds that cell to the region bounded by its left, up, up-left and up-right seed neighbours |
| SdfGrid.Grid.FromRightStep | sdf_physics/engine/shape/Shape.cpp:122-126 | one cell of the forward right-to-left sweep keeps both invariants and the bounds already established |
| SdfGrid.Grid.BackwardStep | sdf_physics/engine/shape/Shape.cpp:130-137 | one cell of the backward right-to-left sweep keeps both invariants and adds that cell to the region bounded by its right, down, down-left and down-right seed neighbours |
| SdfGrid.Grid.FromLeftStep | sdf_physics/engine/shape/Shape.cpp:138-142 | one cell of the backward left-to-right sweep keeps both invariants and the bounds already established |
| SdfGrid.RectsKeep | sdf_physics/engine/shape/Shape.cpp:146-152 | relaxing one cell keeps every neighbour bound already established, since that cell only got closer |
| SdfGrid.BothPassesNear | sdf_physics/engine/shape/Shape.cpp:112-144 | the forward pass's four neighbours and the backward pass's four together cover all eight |
| SdfGrid.Grid.GenerateSdf | sdf_physics/engine/shape/Shape.cpp:112-144 | no cell's squared distance grows, seeds keep (0, 0), every offset leads to an initial seed or into the sentinel region, and a cell with an initial seed among its eight neighbours ends at a squared distance of at most 1 (side) or 2 (corner) |
| Sdf.SignedDistanceSign | sdf_physics/engine/shape/Shape.cpp:182-191 | zero outside distance gives ≤ 0 and zero inside distance gives ≥ 0; with the other side positive, the value is at least half a pixel from 0 |
| Sdf.HalfPixelCorrected | sdf_physics/engine/shape/Shape.cpp:185-190 | a zero distance stays 0, and a distance of at least one pixel becomes smaller but stays at least half a pixel |
| Sdf.SignedDistance | sdf_physics/engine/shape/Shape.cpp:182-191 | outside minus inside distance, each the root of its squared distance, half-pixel corrected; its signs are SignedDistanceSign |
| Sdf.CellDistance | sdf_physics/engine/shape/Shape.cpp:180-193 | SignedDistance of one cell of the two propagated grids |
| Sdf.SeededInExactlyOneGrid | sdf_physics/engine/shape/Shape.cpp:160-170 | every pixel seeds exactly one grid: the outside grid iff it holds material |
| Sdf.Clamp | sdf_physics/engine/shape/Shape.cpp:217 | the clamped index lies in [lo, hi] and an index already inside is unchanged |
| Sdf.KernelEntry | sdf_physics/engine/shape/Shape.cpp:202-209 | every kernel entry is positive |
| Sdf.Sample | sdf_physics/engine/shape/Shape.cpp:217-218 | the copy's value at the neighbour, each coordinate clamped into the raster; SampleBetween bounds it |
| Sdf.BlurAt | sdf_physics/engine/shape/Shape.cpp:214-221 | the weighted 3x3 sum times 1/9; BlurSumExpanded gives its nine terms and BlurBetween its bounds |
| Sdf.RowExpanded | sdf_physics/engine/shape/Shape.cpp:216-219 | the inner offset loop adds the three weighted samples of its row |
| Sdf.BlurSumExpanded | sdf_physics/engine/shape/Shape.cpp:214-220 | the two offset loops add all nine weighted samples |
| Sdf.SampleBetween | sdf_physics/engine/shape/Shape.cpp:215-218 | every blur read is an in-bounds value of the unblurred field |
| Sdf.BlurBetween | sdf_physics/engine/shape/Shape.cpp:202-221 | the weights sum to 1, so with the extra 1/9 the blurred value lies between the field's bounds divided by 9 |
| Sdf.SeedGrids | sdf_physics/engine/shape/Shape.cpp:157-170 | material pixels become (0, 0) in the outside grid, empty pixels in the inside grid, and every other cell holds the sentinel |
| Sdf.CombinedStep | sdf_physics/engine/shape/Shape.cpp:180-195 | writing one more cell's signed distance extends the combined prefix by one |
| Sdf.PixelDistance | sdf_physics/engine/shape/Shape.cpp:182-193 | the pixel's value is outside minus inside, each the root of its squared distance corrected by half a pixel when positive |
| Sdf.CombineDistances | sdf_physics/engine/shape/Shape.cpp:177-195 | every cell of the field holds its pre-blur signed distance |
| Sdf.BlurSample | sdf_physics/engine/shape/Shape.cpp:214-221 | the loops compute the clamped, weighted 3x3 sum times 1/9 |
| Sdf.BlurRow | sdf_physics/engine/shape/Shape.cpp:216-219 | the inner offset loop computes the three weighted samples of its row |
| Sdf.BlurNext | sdf_physics/engine/shape/Shape.cpp:213-226 | one pixel of the blur loop extends the blurred prefix and the running min and max by that pixel |
| Sdf.MinMaxStep | sdf_physics/engine/shape/Shape.cpp:225-226 | the running min and max, started at float max and lowest, bound all values so far and are attained |
| Sdf.BlurredStep | sdf_physics/engine/shape/Shape.cpp:212-223 | writing the blurred value of one more pixel extends the blurred prefix |
| Sdf.BlurPass | sdf_physics/engine/shape/Shape.cpp:197-228 | every pixel holds the blur of the copy; min and max bound every value and each is attained (or keeps its initial float limit) |
| Sdf.SeedKept | sdf_physics/engine/shape/Shape.cpp:149 | nothing is strictly closer than a seed, so a seed keeps (0, 0) |
| Sdf.SignAtSeed | sdf_physics/engine/shape/Shape.cpp:182-191 | an outside-grid seed is at distance ≤ 0 and an inside-grid seed at ≥ 0 |
| Sdf.StrictSignAtSeed | sdf_physics/engine/shape/Shape.cpp:182-191 | a seed of one grid that is at a positive squared distance in the other is at least half a pixel on its side of 0 |
| Sdf.PreBlurSign | sdf_physics/engine/shape/Shape.cpp:160-191 | before the blur, material is at distance ≤ 0 and empty space at ≥ 0 |
| Sdf.StaysPositive | sdf_physics/engine/shape/Shape.cpp:91 | with both sides at most 9998, a propagated cell that was not a seed is at a positive squared distance |
| Sdf.NonSeedIsPositive | sdf_physics/engine/shape/Shape.cpp:102-108 | an offset that leads to a seed or into the sentinel region, from a cell that is not a seed, is non-zero |
| Sdf.NextToSeed | sdf_physics/engine/shape/Shape.cpp:112-152 | after propagation, a non-seed cell with a seed among its neighbours is at squared distance 1 or 2 |
| Sdf.CrossingsNear | sdf_physics/engine/shape/Shape.cpp:157-173 | with both sides at most 9998, a pixel with a neighbour across the material boundary is at squared distance 1 or 2 in the grid it does not seed |
| Sdf.BoundaryCell | sdf_physics/engine/shape/Shape.cpp:182-191 | a seed of one grid at squared distance 1 or 2 in the other is between half a pixel and one pixel from 0 |
| Sdf.BoundaryDistance | sdf_physics/engine/shape/Shape.cpp:157-195 | a pixel with a neighbour across the material boundary has a pre-blur distance in [0.5, 1] on empty space and in [−1, −0.5] on material |
| Sdf.PreBlurStrictSign | sdf_physics/engine/shape/Shape.cpp:160-191 | with both sides at most 9998, material is at ≤ −0.5 and empty space at ≥ 0.5 before the blur |
| Sdf.WeakFieldSigns | sdf_physics/engine/shape/Shape.cpp:160-195 | the whole pre-blur field follows the material: ≤ 0 on material and ≥ 0 on empty space |
| Sdf.StrictFieldSigns | sdf_physics/engine/shape/Shape.cpp:160-195 | with both sides at most 9998, the whole pre-blur field is ≤ −0.5 on material and ≥ 0.5 on empty space |
| Sdf.FieldSigns | sdf_physics/engine/shape/Shape.cpp:160-195 | both of the above for the combined field |
| Sdf.PreBlurField | sdf_physics/engine/shape/Shape.cpp:157-195 | the seeded, propagated and combined field: seeds kept, every offset leading to a seed, every cell next to a seed within the step to it, every cell its signed distance |
| Sdf.ShapeSdf.constructor | sdf_physics/engine/shape/Shape.hpp:10-22 | an empty field of size 0 x 0 |
| Sdf.ShapeSdf.Create | sdf_physics/engine/shape/Shape.cpp:85-240 | the stored field is the blur of the pre-blur signed distances, with min and max bounding it; the pre-blur field keeps PreBlurField's facts, its signs follow the material, and with both sides at most 9998 they are strict and every pixel next to the boundary is within one pixel of it |
| Sdf.ShapeSdf.GetDistance | sdf_physics/engine/shape/Shape.cpp:273-275 | the stored distance of a pixel is the blur there and lies between min and max |
| ShapeStore.Emplaced | sdf_physics/engine/shape/ShapeManager.cpp:8-13 | emplace then SetId: a new key receives the shape, an existing key keeps its shape, the stored id equals the key, and other keys are unchanged |
| ShapeStore.Erased | sdf_physics/engine/shape/ShapeManager.cpp:15-17 | the key is gone and every other entry is unchanged |
| ShapeStore.EmplaceFresh | sdf_physics/engine/shape/ShapeManager.cpp:8-13 | a newly generated id is absent, so the map gains exactly that entry and keeps ids equal to keys and below the counter |
| ShapeStore.EmplaceExisting | sdf_physics/engine/shape/ShapeManager.cpp:10-11 | emplacing a present key leaves the map unchanged |
| ShapeStore.EraseKeeps | sdf_physics/engine/shape/ShapeManager.cpp:15-17 | erasing keeps the map's invariants |
| ShapeStore.NeverReissued | sdf_physics/util/TypeSafeId.hpp:35-38 | an id at or below the counter is not among the ids generated next, before the wrap |
| ShapeStore.ShapeManager.constructor | sdf_physics/engine/shape/ShapeManager.hpp:19-21 | an empty store with a fresh generator |
| ShapeStore.ShapeManager.CreateShape | sdf_physics/engine/shape/ShapeManager.cpp:8-13 | generates an id and stores the shape under it with that id; before the wrap the id is valid, new, never deleted, and the map gains exactly that entry |
| ShapeStore.ShapeManager.DeleteShape | sdf_physics/engine/shape/ShapeManager.cpp:15-17 | in any state, returns whether the key was present and erases it, adding it to the deleted ids when it was; a store that kept its invariant still keeps it |
| ShapeStore.ShapeManager.GetShape | sdf_physics/engine/shape/ShapeManager.cpp:19-31 | the stored shape, or None (nullptr) exactly when the id is absent |
| ShapeStore.ShapeManager.HasShape | sdf_physics/engine/shape/ShapeManager.cpp:33-35 | true exactly when GetShape finds a shape |
| SpatialHash.ToCellSpace | sdf_physics/engine/Broadphase.cpp:11-15 | floor division by the cell size 8: the position lies within its cell on both axes |
| SpatialHash.InRect | sdf_physics/engine/Broadphase.cpp:33-34 | the cells the two AddDynamic loops visit: both coordinates between start and end |
| SpatialHash.Lookup | sdf_physics/engine/Broadphase.cpp:35 | `try_emplace`: a missing cell reads as an empty list |
| SpatialHash.Normalize | sdf_physics/engine/Broadphase.cpp:65-69 | the pair holds the same two entities, lower first |
| SpatialHash.StrictlySortedIsUnique | sdf_physics/engine/Broadphase.cpp:77-79 | a strictly sorted list holds no pair twice |
| SpatialHash.StrictlySortedUniqueRepresentation | sdf_physics/engine/Broadphase.cpp:77-79 | two strictly sorted lists with the same pairs are equal, so the result does not depend on the order cells are visited |
| SpatialHash.CellPairs | sdf_physics/engine/Broadphase.cpp:46-71 | every overlapping pair of entries a < b in one cell's list is in the set, normalised |
| SpatialHash.PairsOfCharacterised | sdf_physics/engine/Broadphase.cpp:44-71 | a pair is collected iff some cell holds its two entities at distinct positions and they pass the overlap test (soundness and completeness) |
| SpatialHash.PairsStep | sdf_physics/engine/Broadphase.cpp:54-70 | one more inner-loop position adds its pair exactly when the test passes |
| SpatialHash.PairsRowEnd | sdf_physics/engine/Broadphase.cpp:46-54 | finishing the inner loop for one left entry is starting it for the next |
| SpatialHash.PairsEnds | sdf_physics/engine/Broadphase.cpp:46-72 | nothing is collected before the loops, and everything of the cell after them |
| SpatialHash.PairsOfStep | sdf_physics/engine/Broadphase.cpp:44-75 | visiting one more cell adds that cell's pairs |
| SpatialHash.LessEqTotal | sdf_physics/engine/Broadphase.cpp:77 | std::pair's order on entity pairs is total |
| SpatialHash.Insert | sdf_physics/engine/Broadphase.cpp:77 | inserting into a sorted list keeps it sorted and adds exactly that pair |
| SpatialHash.SortPairs | sdf_physics/engine/Broadphase.cpp:77 | std::sort: the result is sorted and a permutation of the input |
| SpatialHash.Unique | sdf_physics/engine/Broadphase.cpp:78-79 | std::unique then erase on a sorted list: strictly sorted, with the same set of pairs |
| SpatialHash.CollectCell | sdf_physics/engine/Broadphase.cpp:46-72 | the pairs one cell's double loop pushes are exactly that cell's overlapping pairs |
| SpatialHash.Broadphase.constructor | sdf_physics/engine/Broadphase.cpp:17-22 | no cells and an empty result cache |
| SpatialHash.Broadphase.AddDynamic | sdf_physics/engine/Broadphase.cpp:24-39 | the entity is appended once to every cell from ToCellSpace(min) to ToCellSpace(max), and no other cell changes |
| SpatialHash.Broadphase.FillRect | sdf_physics/engine/Broadphase.cpp:33-38 | the two loops append the entity to every cell of the rectangle and change nothing else |
| SpatialHash.Broadphase.FillRow | sdf_physics/engine/Broadphase.cpp:34-37 | one row of the rectangle is added to the cells already filled |
| SpatialHash.Broadphase.GetPotentiallyIntersections | sdf_physics/engine/Broadphase.cpp:41-82 | the result is strictly sorted, normalised and exactly the overlapping pairs of the old cells; every cell is emptied and its key kept |
| SpatialHash.Broadphase.CollectAll | sdf_physics/engine/Broadphase.cpp:42-75 | the collected pairs are exactly the overlapping pairs of the old cells, and every cell is emptied with its key kept |
| SpatialHash.Broadphase.CollectNext | sdf_physics/engine/Broadphase.cpp:44-75 | one more cell has its pairs appended and is emptied, and the unvisited cells are untouched |
| Physics.VelocityAt | sdf_physics/ecs/systems/PhysicsSystem.cpp:21-24 | at the body's origin the point velocity is the linear velocity |
| Physics.RotationIsPerpendicular | sdf_physics/ecs/systems/PhysicsSystem.cpp:21-24 | the rotational part of the point velocity is perpendicular to the lever arm |
| Physics.ApplyImpulseAt | sdf_physics/ecs/systems/PhysicsSystem.cpp:26-30 | mass times the velocity change equals the impulse, the angular change is the cross product of the lever arm and the impulse, and the mass is kept |
| Physics.ImpulsesCompose | sdf_physics/ecs/systems/PhysicsSystem.cpp:26-30 | two impulses at one point act as their sum |
| Physics.MomentumConserved | sdf_physics/ecs/systems/PhysicsSystem.cpp:295-301 | the opposite impulses on the two bodies leave the total linear momentum unchanged |
| Vectors.Min | sdf_physics/ecs/systems/PhysicsSystem.cpp:282 | glm::min: at most both arguments, and one of them |
| Vectors.Max | sdf_physics/engine/shape/Shape.cpp:225 | glm::max: at least both arguments, and one of them |
| Physics.Abs | sdf_physics/ecs/systems/PhysicsSystem.cpp:291 | glm::abs: non-negative and ± its argument |
| Physics.Clamp | sdf_physics/ecs/systems/PhysicsSystem.cpp:292 | glm::clamp: the result lies in [lo, hi], is the argument when already inside, and otherwise the bound it crossed |
| Physics.AccumulateNormal | sdf_physics/ecs/systems/PhysicsSystem.cpp:279-283 | the cumulative normal impulse is never positive: previous + raw when that is ≤ 0, else 0 |
| Physics.AccumulateTangent | sdf_physics/ecs/systems/PhysicsSystem.cpp:290-293 | the cumulative tangent impulse stays within ±0.2·\|normal\| and is previous + raw when that already lies inside |
| Physics.AccumulatorsBounded | sdf_physics/ecs/systems/PhysicsSystem.cpp:282-292 | the bound the two clamps keep: normal accumulator ≤ 0 and tangent accumulator within ±0.2·\|normal\| |
| Physics.NewContactIsBounded | sdf_physics/ecs/systems/PhysicsSystem.cpp:196 | a contact pushed with its accumulators value-initialised to 0 is within the accumulator bounds |
| Physics.Tangent | sdf_physics/ecs/systems/PhysicsSystem.cpp:285 | the tangent (n.y, −n.x) is perpendicular to the normal |
| Physics.MarchWalker | sdf_physics/ecs/systems/PhysicsSystem.cpp:142-200 | at most 50 steps, stopping at the first settled inside step; a contact exactly when the last step is inside, new and between the pair |
| Physics.MarchPair | sdf_physics/ecs/systems/PhysicsSystem.cpp:138-201 | the two walkers of a pair add at most two contacts, all new, between that pair, with depth ≥ 0 |
| Physics.FilledCount | sdf_physics/ecs/systems/PhysicsSystem.cpp:229 | the number of non-empty pixels is at most the number of pixels |
| Physics.PlaneContacts | sdf_physics/ecs/systems/PhysicsSystem.cpp:219-249 | no contact when the body is out of the plane's reach; otherwise at most one per non-empty pixel, each new, against the invalid entity, with overlap ≥ 0 |
| Physics.MassSumIsProduct | sdf_physics/ecs/systems/PhysicsSystem.cpp:329-338 | the accumulated mass is the filled-pixel count times the pixel mass |
| Physics.MomentSumIsScaled | sdf_physics/ecs/systems/PhysicsSystem.cpp:329-338 | the accumulated moment is the pixel mass times the sum of the filled pixels' centres |
| Physics.Centroid | sdf_physics/ecs/systems/PhysicsSystem.cpp:341 | the division of the moment by the mass is undefined (None) exactly when the mass is 0 |
| Physics.CentroidOfScaled | sdf_physics/ecs/systems/PhysicsSystem.cpp:341 | dividing w·sum by c·w gives sum / c |
| Physics.MassValuesOf | sdf_physics/ecs/systems/PhysicsSystem.cpp:324-341 | the mass is filled-pixel count × pixel area × density 100, and the centre is undefined only for zero mass |
| Physics.CentroidIsMean | sdf_physics/ecs/systems/PhysicsSystem.cpp:326-341 | with a positive pixel area the mass is 0 iff the image is empty, and otherwise the centre of mass is the mean centre of the filled pixels |
| Physics.ComputeMassValues | sdf_physics/ecs/systems/PhysicsSystem.cpp:324-341 | the double pixel loop computes exactly MassValuesOf |
| Physics.ScanRow | sdf_physics/ecs/systems/PhysicsSystem.cpp:330-339 | one row of the scan extends the accumulated mass and moment by that row |
| Physics.NormalMass | sdf_physics/ecs/systems/PhysicsSystem.cpp:265-274 | the sum of 1 / mass over the sides that have a body: positive when one exists, else 0 |
| Physics.RelativeVelocity | sdf_physics/ecs/systems/PhysicsSystem.cpp:266-274 | left point velocity minus right point velocity, zero when neither side has a body |
| Physics.PositivePart | sdf_physics/ecs/systems/PhysicsSystem.cpp:279 | glm::max(x, 0) |
| Physics.SolvedContact | sdf_physics/ecs/systems/PhysicsSystem.cpp:276-293 | one update keeps the accumulators bounded and changes nothing else of the contact |
| Physics.ContactImpulse | sdf_physics/ecs/systems/PhysicsSystem.cpp:281-295 | impulse_vec is zero when neither accumulator changed, and from a new contact it is the normal times the final normal accumulator plus the tangent times the final tangent accumulator |
| Physics.ImpulsesTelescope | sdf_physics/ecs/systems/PhysicsSystem.cpp:281-295 | the impulses of two successive accumulator changes of one contact add up to the impulse of the change from the first state to the last |
| Physics.Impulsed | sdf_physics/ecs/systems/PhysicsSystem.cpp:295-301 | the left body (when it has one) receives the negated impulse_vec and the right body (when it has one) impulse_vec, both applied at the contact point; a contact of a body with itself applies both in turn; every other body is unchanged and every mass is kept |
| Physics.PlaneContactMovesOneBody | sdf_physics/ecs/systems/PhysicsSystem.cpp:296-301 | a contact against the invalid entity moves only its left body |
| Physics.ContactConservesMomentum | sdf_physics/ecs/systems/PhysicsSystem.cpp:295-301 | for a contact between two distinct bodies, the pair's total linear momentum is unchanged by the impulse |
| Physics.Step | sdf_physics/ecs/systems/PhysicsSystem.cpp:258-302 | one contact update: its accumulators end bounded, every other contact is unchanged, and the bodies, their masses and all contact geometry are kept |
| Physics.StepMovesOnlyItsBodies | sdf_physics/ecs/systems/PhysicsSystem.cpp:295-301 | a step changes no body other than the contact's two, and for two distinct bodies conserves their total momentum |
| Physics.Sweep | sdf_physics/ecs/systems/PhysicsSystem.cpp:258-302 | solving the first n contacts in order leaves those n bounded and the rest unchanged |
| Physics.Passes | sdf_physics/ecs/systems/PhysicsSystem.cpp:256-303 | p sweeps over every contact; after at least one, every accumulator is bounded, with bodies and geometry kept |
| Physics.ComposeTo | sdf_physics/ecs/systems/PhysicsSystem.cpp:26-30 | two impulses that add up to a total, applied in turn, act as the total, and so do their negations |
| Physics.Received | sdf_physics/ecs/systems/PhysicsSystem.cpp:295-301 | the bodies after one application of a contact's total accumulator change: same entities, and every body other than the contact's two unchanged |
| Physics.NothingReceived | sdf_physics/ecs/systems/PhysicsSystem.cpp:281-301 | a contact whose accumulators did not change has moved no body |
| Physics.UpdateAddsUp | sdf_physics/ecs/systems/PhysicsSystem.cpp:281-301 | one more update of a contact, applied to bodies that already received its change so far, leaves them as if they had received the whole change at once |
| Physics.LastPass | sdf_physics/ecs/systems/PhysicsSystem.cpp:256-258 | with one contact, pass p is one update of that contact after p - 1 passes, and the contact keeps its bodies, normal and point |
| Physics.StepReceives | sdf_physics/ecs/systems/PhysicsSystem.cpp:256-301 | if the bodies after p - 1 passes received the contact's total change so far, those after p passes received its total change up to the new state |
| Physics.PassAddsUp | sdf_physics/ecs/systems/PhysicsSystem.cpp:256-301 | the inductive step: after p passes the bodies received the contact's total accumulator change |
| Physics.AppliedImpulsesAddUp | sdf_physics/ecs/systems/PhysicsSystem.cpp:256-303 | for a single contact between two distinct bodies, after any number of passes the left body is as if it had received, in one application, the negated impulse of the total accumulator change and the right body that impulse; from a new contact, the impulse of the final accumulators |
| Physics.PhysicsSystem.constructor | sdf_physics/ecs/systems/PhysicsSystem.cpp:32-43 | no contacts and an empty mass cache |
| Physics.PhysicsSystem.GetMassValues | sdf_physics/ecs/systems/PhysicsSystem.cpp:320-348 | a cache hit returns the stored entry unchanged; a miss computes MassValuesOf, stores it and returns it |
| Physics.PhysicsSystem.AddPairContacts | sdf_physics/ecs/systems/PhysicsSystem.cpp:138-201 | the contact list grows by at most two and keeps its earlier entries; every added contact is new, between the pair, with depth ≥ 0 |
| Physics.PhysicsSystem.AddPlaneContacts | sdf_physics/ecs/systems/PhysicsSystem.cpp:219-253 | the contact list grows by at most the shape's filled-pixel count and keeps its earlier entries; every added contact is new, of the body against the invalid entity, with overlap ≥ 0; nothing is added when the body is out of the plane's reach |
| Physics.PhysicsSystem.SolveContact | sdf_physics/ecs/systems/PhysicsSystem.cpp:258-302 | the new bodies and contacts are exactly Step of the old ones at that contact |
| Physics.PhysicsSystem.SolvePass | sdf_physics/ecs/systems/PhysicsSystem.cpp:258-302 | one pass of the contact loop computes exactly Sweep over all contacts |
| Physics.PhysicsSystem.Solve | sdf_physics/ecs/systems/PhysicsSystem.cpp:256-303 | the new bodies and contacts are exactly Passes of the old ones with five passes |
| Physics.PhysicsSystem.SolveAndClear | sdf_physics/ecs/systems/PhysicsSystem.cpp:256-305 | the bodies are those of five passes of the solver, and the contact list is then empty |
| Binds.DefaultBind | sdf_physics/Input.cpp:37 | Bind(): the unknown key, read as Down |
| Binds.BindKey | sdf_physics/Input.hpp:46-48 | Bind(key): the key, read as Down |
| Binds.IsKeyboardBind | sdf_physics/Input.hpp:35-37 | the masked low half of the key's bit pattern is not all zeros; IsKeyboardBindIffValue relates it to the keyboard value |
| Binds.GetKeyboardValue | sdf_physics/Input.hpp:38-40 | `(~0u >> 16) & key` on the bit pattern; KeyboardValueIsLowHalf gives its value |
| Binds.GetMouseValue | sdf_physics/Input.hpp:41-43 | `key >> 16` with the sign bit copied; MouseValueIsHighHalf gives its value |
| Binds.KeyboardValueIsLowHalf | sdf_physics/Input.hpp:38-40 | the keyboard value, `key & 0xFFFF` on the two's complement bits, is key mod 65536 and lies in [0, 65535] |
| Binds.IsKeyboardBindIffValue | sdf_physics/Input.hpp:35-40 | IsKeyboardBind holds exactly when the keyboard value is non-zero |
| Binds.MouseValueIsHighHalf | sdf_physics/Input.hpp:41-43 | the mouse value, the arithmetic shift `key >> 16`, is the floor of key / 65536 |
| Binds.BindRoundTrip | sdf_physics/Input.hpp:38-43 | mouse value × 65536 + keyboard value gives back every i32 key |
| InputState.Record | sdf_physics/Input.cpp:13-16 | a repeat changes nothing; any other action becomes the current state and adds one change |
| InputState.Reset | sdf_physics/Input.cpp:91-96 | the change counter restarts and the current state stays |
| InputState.Decide | sdf_physics/Input.cpp:122-128 | the decision table of Has for one bound key state; PressedIsDown, OneChangePerFrame, TapNotLost and DecideAfterReset state what it means |
| InputState.DecideAfterReset | sdf_physics/Input.cpp:123-128 | right after Update nothing is Pressed or Released, and Down holds iff the last action was a press |
| InputState.PressedIsDown | sdf_physics/Input.cpp:124-126 | Pressed implies Down |
| InputState.OneChangePerFrame | sdf_physics/Input.cpp:123-128 | a press in a new frame is Pressed and Down, not Released; a release is Released, not Pressed or Down |
| InputState.TapNotLost | sdf_physics/Input.cpp:123-128 | a press and release within one frame, with any repeats between, counts as Down, Pressed and Released |
| InputState.RepeatsChangeNothing | sdf_physics/Input.cpp:13 | any number of repeat callbacks leave a key state unchanged |
| InputState.DefaultKeybinds | sdf_physics/Input.cpp:44-52 | movement keys read as Down, F5 as Released, every key a real key code |
| InputState.DefaultMousebinds | sdf_physics/Input.cpp:54 | MainDown is the right mouse button, read as Down |
| InputState.DefaultKeybindIsLowHalf | sdf_physics/Input.cpp:44-52 | every default key binding is a keyboard bind with mouse value 0 and keyboard value equal to the key |
| InputState.DefaultMousebindIsLowHalf | sdf_physics/Input.cpp:54 | the default mouse binding is packed in the low half too, so it also counts as a keyboard bind |
| InputState.LastCodesOutOfRangeAsWritten | sdf_physics/Input.cpp:56-57 | with the vectors sized as written, key 348 and mouse button 7 are out of range |
| InputState.EveryCodeInRange | sdf_physics/Input.cpp:56-57 | with one state per code, every key 0..348 and button 0..7 is in range |
| InputState.Input.constructor | sdf_physics/Input.cpp:39-58 | the default bindings, every key and button released with no changes, scroll zero; the state vectors have one entry per code (349 keys, 8 buttons), the corrected half of the Findings row |
| InputState.Input.KeyCallback | sdf_physics/Input.cpp:10-18 | a known key's non-repeat action is recorded in that key's state only; otherwise nothing changes |
| InputState.Input.MouseCallback | sdf_physics/Input.cpp:19-27 | the same for mouse buttons |
| InputState.Input.ScrollCallback | sdf_physics/Input.cpp:28-31 | the offset is added to the scroll |
| InputState.Input.Update | sdf_physics/Input.cpp:81-97 | scroll returns to zero and every key and button state is reset |
| InputState.ResetAll | sdf_physics/Input.cpp:91-96 | every state of the vector is reset, in place |
| InputState.Input.Selected | sdf_physics/Input.cpp:103-116 | a mouse binding overrides a keyboard binding, a keyboard binding to the unknown key is ignored, and nothing is selected otherwise |
| InputState.Input.Has | sdf_physics/Input.cpp:99-136 | an unbound action never fires; a bound one fires by the decision table on its binding's type and state |
| InputState.HasAfterUpdate | sdf_physics/Input.cpp:91-128 | right after Update an action fires iff it is bound as Down and its last action was a press |
| DebugDraw.CrossLines | sdf_physics/graphics/DebugDrawing.cpp:11-14 | a cross is two lines |
| DebugDraw.CrossShape | sdf_physics/graphics/DebugDrawing.cpp:11-14 | both lines are centred on the position and span 2·size along their axes, horizontal then vertical, and they are perpendicular |
| DebugDraw.Drawn | sdf_physics/graphics/DebugDrawing.cpp:7-14 | the lines a sequence of AddLine and AddCross calls appends, in call order; AddLine, AddCross, DrawnAppend and DrawnCount are stated in its terms |
| DebugDraw.DrawnAppend | sdf_physics/graphics/DebugDrawing.cpp:7-14 | calls made one after another append their lines one after another |
| DebugDraw.DrawnCount | sdf_physics/graphics/DebugDrawing.cpp:7-22 | after n AddLine and m AddCross calls since Clear the buffer holds n + 2m lines |
| DebugDraw.DebugDrawing.constructor | sdf_physics/graphics/DebugDrawing.cpp:3 | an empty buffer |
| DebugDraw.DebugDrawing.AddLine | sdf_physics/graphics/DebugDrawing.cpp:7-9 | exactly one line is appended at the end |
| DebugDraw.DebugDrawing.AddCross | sdf_physics/graphics/DebugDrawing.cpp:11-14 | the cross's two lines are appended, in order |
| DebugDraw.DebugDrawing.GetLines | sdf_physics/graphics/DebugDrawing.cpp:16-18 | the buffer, returned without change |
| DebugDraw.DebugDrawing.Clear | sdf_physics/graphics/DebugDrawing.cpp:20-22 | the buffer is empty |

## Left out

- Floating point: all arithmetic on positions, velocities, distances and impulses is exact real arithmetic, so there is no rounding, no overflow to infinity and no NaN.
- SdfGrid.SquaredDistance: computed on unbounded integers. The code squares and adds the offset components as 32-bit `int` (sdf_physics/engine/shape/Shape.cpp:92-94), which overflows once an offset exceeds about 32768, that is, for images more than about 22,000 pixels on a side; that overflow is not modelled.
- Sdf.RootLike: `glm::sqrt` is a parameter. Only these facts about it are assumed: it is 0 at 0, 1 at 1, at most 1.5 at 2, and at least 1 at every positive integer.
- SdfGrid.Grid.GenerateSdf: does not promise that a cell ends at its nearest seed. The eight-neighbour two-pass transform is itself approximate. The model proves the bounds above: no cell gets farther, offsets lead to seeds, and a seed among the eight neighbours bounds the distance by that step.
- Sdf.PreBlurField: inherits the GenerateSdf gap; a pixel's distance is bounded only next to a seed, not for pixels farther from the boundary.
- Sdf.ShapeSdf.Create: inherits the GenerateSdf gap, and states the blurred field only through its definition and its min and max; no bound on blurred values in terms of the boundary is proved.
- `ShapeSdf::GetDistanceAndGradient` (sdf_physics/engine/shape/Shape.cpp:242-271): bilinear interpolation and gradient normalisation are float computations.
- `Shape::GenerateRandomShape` and the `Shape` constructors (sdf_physics/engine/shape/Shape.cpp:9-19, 57-83): they use `rand()` and simplex noise, so the image is taken as an input.
- `ShapeManager::CreateShape()` without arguments (sdf_physics/engine/shape/ShapeManager.cpp:3-6) builds a random shape and is left out for the same reason.
- ShapeStore.ShapeManager.GetShape and ShapeStore.ShapeManager.CreateShape: they return the stored shape as a value, not a pointer or reference into the map. Writes through the returned reference and aliasing with the stored entry are not modelled.
- The trivial `Shape` getters and setters, and `GetSizeInMeters`: the pixel size comes from `ShapeMetadata.hpp`, which is not part of this model. Pixel size and pixel area are parameters.
- SpatialHash.Broadphase.AddDynamic: the radius computed from the shape's size is a parameter.
- SpatialHash.Broadphase.GetPotentiallyIntersections:
  - the radius-based overlap test is a parameter `overlaps`;
  - the unordered map's iteration order is left unspecified;
  - `std::hash<glm::ivec2>` is not modelled.
- Narrow-phase geometry (sdf_physics/ecs/systems/PhysicsSystem.cpp:122-199): rotations, distance sampling, step shrinking and normal averaging are replaced by a `probe` parameter. What each walker step finds comes from `probe`, so contact positions, normals and depths come from it too.
- Physics.PlaneContacts: the projection of each pixel onto the plane is a parameter. Only the counts, the entities, the reach test and the sign of the overlap are modelled.
- `PhysicsSystem::Initialize` (random scene setup) is left out.
- The integrator loop at the end of `Update` (sdf_physics/ecs/systems/PhysicsSystem.cpp:307-317) is left out.
- The debug drawing calls inside `Update` are left out.
- `Update` itself: the model offers its stages (AddPairContacts, AddPlaneContacts, SolveAndClear) as separate methods.
- The entt registry: components are modelled as maps from entity to body and to position. An absent `try_get` is an absent key.
- Physics.ApplyImpulseAt: requires a non-zero mass. The code divides by the mass, and a body made of an empty shape would get infinite velocities.
- Physics.PhysicsSystem.Solve: requires dt > 0 and positive masses. The code divides by dt and by the normal mass without checks.
- Physics.AppliedImpulsesAddUp: stated for a contact list of one contact between two distinct bodies. With several contacts, a body's total is the sum over every contact that touches it, in the order of the list, and that sum is not stated.
- Physics.PhysicsSystem: body positions are a constant of the system. The solver reads them but only the integrator, which is left out, moves them.
- InputState.KeyState: `num_state_changes` is an unbounded integer. The i32 overflow after 2^31 callbacks in one frame is not modelled.
- InputState.Input.KeyCallback: requires a key within GLFW's reported range (−1 or 0..348). GLFW guarantees this, but the callback does not check it.
- Input is not modelled beyond the key states:
  - mouse position and movement;
  - `SetMouseLocked`;
  - window size queries;
  - callback registration.
- `DebugDrawing::AddVector` is declared in DebugDrawing.hpp but never defined, so there is nothing to model.

## Findings

| source | as written | input that shows it | evidently intended | confidence | as-written member | corrected member |
|---|---|---|---|---|---|---|
| sdf_physics/Input.cpp:56-57 | the key and mouse state vectors are resized to `GLFW_KEY_LAST` and `GLFW_MOUSE_BUTTON_LAST` entries, but those constants are the highest codes, not counts | GLFW reports key 348 (`GLFW_KEY_MENU`) or mouse button 7; the callback indexes one past the end of the vector | one state per code: `GLFW_KEY_LAST + 1` and `GLFW_MOUSE_BUTTON_LAST + 1` entries | not executed | InputState.LastCodesOutOfRangeAsWritten | InputState.EveryCodeInRange |
