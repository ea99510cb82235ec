/** The shape store (engine/shape/ShapeManager.cpp): a map from shape ids to
    shapes, whose keys come from a TypeSafeIdGenerator. */
module ShapeStore {
  import opened Ids
  import opened Shapes
  import opened Wrappers

  /** The map after `m_shapes.emplace(id, shape)` followed by `SetId(id)` on
      the element the emplace returned: a new key receives `shape`, a key that
      is already present keeps its shape. */
  function Emplaced(shapes: map<Id, Shape>, id: Id, shape: Shape): (r: map<Id, Shape>)
    ensures r.Keys == shapes.Keys + {id}
    ensures r[id].id == id
    ensures id !in shapes ==> r[id] == SetId(shape, id)
    ensures id in shapes ==> r[id] == SetId(shapes[id], id)
    ensures forall k | k in shapes && k != id :: r[k] == shapes[k]
  {
    if id in shapes then shapes[id := SetId(shapes[id], id)] else shapes[id := SetId(shape, id)]
  }

  /** The map after `m_shapes.erase(id)`. */
  function Erased(shapes: map<Id, Shape>, id: Id): (r: map<Id, Shape>)
    ensures id !in r
    ensures r.Keys == shapes.Keys - {id}
    ensures forall k | k in r :: r[k] == shapes[k]
  {
    shapes - {id}
  }

  /** Every stored shape carries its own key as its id. */
  ghost predicate IdsMatchKeys(shapes: map<Id, Shape>) {
    forall k | k in shapes :: shapes[k].id == k
  }

  /** Every key was handed out by a generator whose counter is now `last`. */
  ghost predicate KeysIssued(shapes: map<Id, Shape>, last: U32) {
    forall k | k in shapes :: 1 <= k.value <= last
  }

  /** Emplacing keeps every stored id equal to its key; when the key is one
      more than the counter that bounds all present keys, the key is new, the
      map gains exactly that entry, and the counter bound moves up by one. */
  lemma EmplaceFresh(shapes: map<Id, Shape>, last: U32, shape: Shape)
    requires IdsMatchKeys(shapes) && KeysIssued(shapes, last) && last < U32Max
    ensures Id(last + 1) !in shapes
    ensures Emplaced(shapes, Id(last + 1), shape) == shapes[Id(last + 1) := SetId(shape, Id(last + 1))]
    ensures IdsMatchKeys(Emplaced(shapes, Id(last + 1), shape))
    ensures KeysIssued(Emplaced(shapes, Id(last + 1), shape), last + 1)
  {
  }

  /** Emplacing an existing key changes nothing, since that shape already
      carries the key as its id. */
  lemma EmplaceExisting(shapes: map<Id, Shape>, id: Id, shape: Shape)
    requires IdsMatchKeys(shapes) && id in shapes
    ensures Emplaced(shapes, id, shape) == shapes
  {
    assert SetId(shapes[id], id) == shapes[id];
  }

  /** Erasing keeps both invariants. */
  lemma EraseKeeps(shapes: map<Id, Shape>, last: U32, id: Id)
    requires IdsMatchKeys(shapes) && KeysIssued(shapes, last)
    ensures IdsMatchKeys(Erased(shapes, id)) && KeysIssued(Erased(shapes, id), last)
  {
  }

  /** An id at or below the counter is not among the next ids the generator
      hands out before it wraps: a deleted id is never reissued. */
  lemma {:induction false} NeverReissued(last: U32, n: nat, id: Id)
    requires id.value <= last && last + n <= U32Max
    ensures id !in Issue(last, n)
  {
    IssueIsConsecutive(last, n);
  }

  /** ShapeManager. `retired` records the ids deleted so far. */
  class ShapeManager {
    var shapes: map<Id, Shape>
    const generator: IdGenerator
    ghost var retired: set<Id>

    ghost predicate Valid()
      reads this, generator
    {
      IdsMatchKeys(shapes) && KeysIssued(shapes, generator.last) &&
      (forall k | k in retired :: k.value <= generator.last)
    }

    constructor ()
      ensures Valid() && shapes == map[] && retired == {} && generator.last == 0
      ensures fresh(generator)
    {
      shapes := map[];
      generator := new IdGenerator();
      retired := {};
    }

    /** CreateShape(Shape): generate an id, emplace the shape under it and set
        the stored shape's id. Returns the new id and the stored shape. As
        long as the counter has not wrapped, the id is new and has never been
        deleted, and the map gains exactly that one entry. */
    method CreateShape(shape: Shape) returns (id: Id, stored: Shape)
      modifies this, generator
      ensures generator.last == Next(old(generator.last))
      ensures id == Id(generator.last)
      ensures shapes == Emplaced(old(shapes), id, shape) && stored == shapes[id]
      ensures retired == old(retired)
      ensures old(Valid()) ==> IdsMatchKeys(shapes)
      ensures old(Valid()) && old(generator.last) < U32Max ==>
        Valid() && IsValid(id) && id !in old(shapes) && id !in old(retired) &&
        shapes == old(shapes)[id := SetId(shape, id)]
    {
      ghost var before := shapes;
      ghost var last := generator.last;
      id := generator.Generate();
      shapes := Emplaced(shapes, id, shape);
      stored := shapes[id];
      if last < U32Max && IdsMatchKeys(before) && KeysIssued(before, last) {
        EmplaceFresh(before, last, shape);
      }
    }

    /** DeleteShape: erase the key, in any state, and report whether it was
        present. A store that kept its invariant still keeps it. */
    method DeleteShape(id: Id) returns (removed: bool)
      modifies this
      ensures removed <==> id in old(shapes)
      ensures shapes == Erased(old(shapes), id)
      ensures retired == old(retired) + (if removed then {id} else {})
      ensures old(Valid()) ==> Valid()
    {
      removed := id in shapes;
      if removed {
        retired := retired + {id};
      }
      shapes := Erased(shapes, id);
    }

    /** GetShape: the stored shape, or None (nullptr) when the id is absent. */
    function GetShape(id: Id): (r: Option<Shape>)
      reads this
      ensures r.None? <==> id !in shapes
      ensures r.Some? ==> id in shapes && r.value == shapes[id]
    {
      if id in shapes then Some(shapes[id]) else None
    }

    /** HasShape: whether the id is a key. */
    function HasShape(id: Id): (r: bool)
      reads this
      ensures r <==> GetShape(id).Some?
    {
      id in shapes
    }
  }
}
