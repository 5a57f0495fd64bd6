/** The `Entity` handle: a copyable 32-bit index, with no generation counter. */
module Entities {

  const U32_LIMIT: nat := 0x1_0000_0000

  /** An unsigned 32-bit integer. */
  type u32 = x: nat | x < 0x1_0000_0000

  /** An entity is nothing but its index: two handles are equal exactly when
      their indices are, and a recycled index is indistinguishable from the
      entity that held it before. */
  datatype Entity = Entity(id: u32) {

    /** `Entity::index`. */
    function Index(): u32 {
      id
    }
  }

  /** `Entity::new`. */
  function New(i: u32): (e: Entity)
    ensures e.Index() == i
  {
    Entity(i)
  }

  /** Entities are ordered as their indices are (the derived `Ord`). */
  predicate Less(a: Entity, b: Entity) {
    a.id < b.id
  }

  /** `new` is injective, and equality of handles is equality of indices. */
  lemma NewInjective(i: u32, j: u32)
    ensures New(i) == New(j) <==> i == j
  {
  }

  /** The order is total and strict, as the derived `Ord` of a single `u32` is. */
  lemma LessIsTotalStrictOrder(a: Entity, b: Entity, c: Entity)
    ensures !Less(a, a)
    ensures Less(a, b) && Less(b, c) ==> Less(a, c)
    ensures a == b || Less(a, b) || Less(b, a)
  {
  }
}
