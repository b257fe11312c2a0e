/**
 * The entity handle: a slot index together with the uuid (generation) that
 * occupied the slot when the handle was issued. src/lib.rs declares the
 * struct with no derives; its equality and copying are taken from
 * src/entity.rs, which the crate does not compile.
 */
module Entities {

  datatype Entity = Entity(idx: nat, uuid: nat)

  /** `PartialEq::eq`: two handles are equal when both fields agree. */
  function Eq(a: Entity, b: Entity): (r: bool)
    ensures r <==> a == b
  {
    a.idx == b.idx && a.uuid == b.uuid
  }

  /** The `Eq` derive: field-wise equality is an equivalence relation. */
  lemma EqIsEquivalence()
    ensures forall a :: Eq(a, a)
    ensures forall a, b :: Eq(a, b) ==> Eq(b, a)
    ensures forall a, b, c :: Eq(a, b) && Eq(b, c) ==> Eq(a, c)
  {
  }

  /** A reused slot's new occupant is a different entity from the old one. */
  lemma ReusedSlotIsNewEntity(before: Entity, after: Entity)
    requires before.idx == after.idx && before.uuid != after.uuid
    ensures !Eq(before, after)
  {
  }

  /** The `Copy` derive: a copy keeps both fields and compares equal. */
  function Copy(e: Entity): (c: Entity)
    ensures c.idx == e.idx && c.uuid == e.uuid
    ensures Eq(c, e)
  {
    Entity(e.idx, e.uuid)
  }
}
