/** Typed identifiers (util/TypeSafeId.hpp): a u32 value wrapped in a type of
    its own, and the generator that hands out fresh values by pre-incrementing a
    counter. */
module Ids {

  const U32Modulus: int := 0x1_0000_0000
  const U32Max: int := U32Modulus - 1

  type U32 = x: int | 0 <= x < U32Modulus

  /** TypeSafeId<T, u32>. The default constructor stores 0, the explicit one
      stores its argument. */
  datatype Id = Id(value: U32)

  const DefaultId: Id := Id(0)

  /** Value: the explicit constructor applied to it gives the id back. */
  function Value(id: Id): (r: U32)
    ensures Id(r) == id
  {
    id.value
  }

  /** An id is valid when its value is non-zero, that is, when it is not
      the default id. */
  predicate IsValid(id: Id): (r: bool)
    ensures r <==> id != DefaultId
  {
    id.value != 0
  }

  /** operator== compares the wrapped values, which is identity of ids. */
  predicate Equal(a: Id, b: Id): (r: bool)
    ensures r <==> a == b
  {
    a.value == b.value
  }

  /** operator!= compares the wrapped values: the negation of operator==. */
  predicate NotEqual(a: Id, b: Id): (r: bool)
    ensures r <==> !Equal(a, b)
  {
    a.value != b.value
  }

  /** The u32 counter after `++`: it wraps from U32Max back to 0. */
  function Next(counter: U32): (r: U32)
    ensures counter < U32Max ==> r == counter + 1 && r != 0
    ensures counter == U32Max ==> r == 0
  {
    (counter + 1) % U32Modulus
  }

  /** The ids that `n` successive calls of Generate return when the counter
      starts at `counter`. */
  function Issue(counter: U32, n: nat): seq<Id>
    decreases n
  {
    if n == 0 then [] else [Id(Next(counter))] + Issue(Next(counter), n - 1)
  }

  lemma DefaultIdIsInvalid()
    ensures Value(DefaultId) == 0 && !IsValid(DefaultId)
  {
  }

  lemma ExplicitValueRoundTrip(v: U32)
    ensures Value(Id(v)) == v
    ensures IsValid(Id(v)) <==> v != 0
  {
  }

  /** As long as the counter does not wrap, the i-th id handed out is
      counter + i + 1: the first id from a fresh generator is 1, each later one
      is one greater than the one before, and every one of them is valid. */
  lemma {:induction false} IssueIsConsecutive(counter: U32, n: nat)
    requires counter + n <= U32Max
    decreases n
    ensures |Issue(counter, n)| == n
    ensures forall i :: 0 <= i < n ==>
      Issue(counter, n)[i].value == counter + i + 1 && IsValid(Issue(counter, n)[i])
  {
    if n > 0 {
      IssueIsConsecutive(Next(counter), n - 1);
      var rest := Issue(Next(counter), n - 1);
      assert Issue(counter, n) == [Id(counter + 1)] + rest;
      forall i | 0 <= i < n
        ensures Issue(counter, n)[i].value == counter + i + 1
      {
        if i > 0 {
          assert Issue(counter, n)[i] == rest[i - 1];
        }
      }
    }
  }

  /** Ids handed out before the counter wraps are pairwise distinct. */
  lemma IssueIsDistinct(counter: U32, n: nat)
    requires counter + n <= U32Max
    ensures forall i, j :: 0 <= i < j < |Issue(counter, n)| ==>
      Issue(counter, n)[i] != Issue(counter, n)[j]
  {
    IssueIsConsecutive(counter, n);
  }

  /** TypeSafeIdGenerator: `last` is the value of the stored id m_id. */
  class IdGenerator {
    var last: U32

    constructor ()
      ensures last == 0
    {
      last := 0;
    }

    /** Pre-increments the counter and returns an id holding its new value. */
    method Generate() returns (id: Id)
      modifies this
      ensures last == Next(old(last))
      ensures id == Id(last)
      ensures old(last) < U32Max ==> IsValid(id) && id.value == old(last) + 1
    {
      last := Next(last);
      id := Id(last);
    }
  }
}
