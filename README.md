# srecs World and EntityIterator in Dafny

This project models the core of srecs ("Simple Rust Entity Component System"):

- **The `World` store (src/world.rs).** A generational slot allocator with staged removal.
  - `active` maps each slot index to the uuid that occupies it; `0` means the slot is free.
  - `reusable_idxs` is a LIFO free list.
  - `next_idx` and `next_uuid` are counters.
  - `components` holds one type-keyed component map per allocated slot.
  - `ent_remove` stages removals and `ent_changed` records additions. Both map an idx to a uuid.
  - Removals take effect only at `propagate_changes`, the commit step.
- **`EntityIterator` (src/lib.rs).** A cursor over a read-only view of `active`. It yields the entities of the nonzero slots.
- **The `Entity` handle (src/lib.rs:10-13).** The value pair `(idx, uuid)`. Its field-wise equality and copying come from src/entity.rs.

## Modules

- `Options` (options.dfy): the `Option` result type.
- `Entities` (entity.dfy): `Entity` as a datatype, its `PartialEq`, and the `Eq` and `Copy` derives.
- `SlotTable` (slot_table.dfy): value-level functions over the slot table:
  - validity (`IsLive`);
  - growth (`Padded`);
  - the slots a commit frees (`Committable`, `ZeroSlots`);
  - the listing of live entities (`LiveFrom`), with its lemmas.
- `Iteration` (iteration.dfy):
  - the `EntityIterator` class, whose `Next` loop is proved against the specification function `FirstLive`;
  - `Drain`, the sequence repeated `Next` calls yield;
  - the finding about the cursor, and its corrected counterpart.
- `Store` (world.dfy): `World<V>` as a class. Its methods change its fields in place under a `modifies` clause. Its invariant is `Valid()`, stated over a value snapshot `Tables<V>`, with one lemma per kind of change that preserves it.
- `Scenarios` (scenarios.dfy): the integration tests of tests/lib.rs, written as clients of `World`, each ending in the values the test checks.

Each slot's component map is a `map<TypeTag, V>`, with these simplifications:
- `TypeTag` stands for the `TypeId` that `AnyMap` keys on.
- `V` is the World's single component value type.

`get_mut_component` returns a `&mut T` that the caller writes through. `GetMutComponent` takes that write as an `edit: V -> V` argument.

`propagate_changes` visits `ent_remove` in HashMap order, which is unspecified, so the loop picks the next key nondeterministically. The contracts therefore fix only:
- the set of pushed indices;
- that the old free list is a prefix of the new one.

The exact stack order is left open.

The model follows src/world.rs as written:
- Component lookups read only the entity's own slot.
- No pending set hides new entities from iteration or listing.
- Component operations never touch `ent_changed`.

## Model

| member | source | states |
|---|---|---|
| Entities.Eq | src/entity.rs:8-12 | true exactly when both handles are the same (idx, uuid) pair |
| Entities.EqIsEquivalence | src/entity.rs:2 | handle equality is reflexive, symmetric and transitive |
| Entities.ReusedSlotIsNewEntity | src/entity.rs:10 | handles with the same idx but different uuids are unequal, so a reused slot's new occupant differs from the old one |
| Entities.Copy | src/entity.rs:2 | a copy keeps both fields and compares equal to the original |
| SlotTable.Padded | src/world.rs:60-62 | `resize(uuid + 1, 0)`: the table reaches the requested length, old slots keep their values and new slots are free |
| SlotTable.OccupyKeepsLive | src/world.rs:60-63 | writing a new uuid into a free slot of the grown table keeps every live handle live and makes the new handle live |
| SlotTable.RestagedSlotIsKept | src/world.rs:73 | staging a stale handle for a slot whose live entity is already staged replaces that pair; the commit does not free the slot and the live entity stays valid |
| SlotTable.LiveStagingCommitsAll | src/world.rs:79-84 | when every staged pair names a live entity, the commit frees every staged slot and no staged handle stays valid |
| SlotTable.CommitValidity | src/world.rs:77-91 | after a commit a handle is valid exactly when it was valid before and was not the staged pair for its slot |
| SlotTable.LiveFrom | src/world.rs:156-161 | every listed handle is live, with idx at or after the starting slot |
| SlotTable.LiveFromSorted | src/world.rs:157-160 | the listing is in strictly increasing idx order, so no slot is listed twice |
| SlotTable.LiveFromComplete | src/world.rs:157-160 | every nonzero slot appears in the listing with its uuid |
| SlotTable.LiveFromSkipsFree | src/world.rs:158 | a run of free slots contributes nothing to the listing |
| SlotTable.LivePrefixListing | src/world.rs:156-161 | when the nonzero slots are exactly a prefix [0, n), the listing is those n slots in order |
| Iteration.FirstLive | src/lib.rs:29-37 | the first nonzero slot at or after the cursor; all slots before it are free; None exactly when every slot from the cursor on is free |
| Iteration.EntityIterator.constructor | src/world.rs:147-152 | the iterator reads the World's slot table, with its cursor at 0 |
| Iteration.EntityIterator.Next | src/lib.rs:27-38 | returns the first nonzero slot at or after `curr` as a handle valid in the table; on a hit the cursor moves by exactly 1 (line 32); on None it stays, so an exhausted iterator stays exhausted |
| Iteration.Drain | src/lib.rs:27-38 | everything repeated `next` calls yield is a live handle at or after the starting cursor |
| Iteration.GapYieldsAgain | src/lib.rs:32 | if `next` skipped a free slot to find an entity, the following call yields the same entity again |
| Iteration.DrainOfLivePrefix | src/lib.rs:27-38 | when the nonzero slots form a prefix [0, n), iteration yields each of them once, in idx order, the same as the listing |
| Iteration.DrainRepeatsAfterFreedSlot | src/lib.rs:32 | on the table [0, 2, 0] the iterator yields (1, 2) twice while the listing holds it once |
| Iteration.DrainSkippingListsAll | src/lib.rs:27-38 | with the cursor moved past the yielded slot, iteration equals the listing for every table |
| Store.AllocKeepsConsistent | src/world.rs:42-65 | allocating an idx (pop or fresh) and the next uuid, and growing the table, keeps the store invariant |
| Store.FreeKeepsConsistent | src/world.rs:81-84 | zeroing a live slot, pushing its idx and clearing its components keeps the store invariant |
| Store.PushedSuffix | src/world.rs:82 | pushing each freed idx once leaves the old free list as a prefix and exactly the freed indices after it |
| Store.World.constructor | src/world.rs:24-35 | a new World has no slots, next_idx 0, next_uuid 1, empty maps, and satisfies the invariant |
| Store.World.GetUuid | src/world.rs:105-110 | a nonzero result makes (idx, result) a valid handle; 0 means no handle with that idx is valid, including out of range |
| Store.World.IsValidEntity | src/world.rs:94-101 | a handle is valid exactly when its uuid is nonzero and equals what `get_uuid` reports for its idx; an out-of-range idx is invalid |
| Store.World.ValidInBounds | src/world.rs:116-117 | a valid handle's idx is below next_idx == the number of component maps, so `components[entity.idx]` is in bounds, and its uuid was issued |
| Store.World.ValidHandlesUnique | tests/lib.rs:26-29 | two valid handles share an idx, or a uuid, only when they are the same handle |
| Store.World.Occupy | src/world.rs:60-63 | the table is grown with free slots to hold the uuid, then the uuid is stored at idx |
| Store.World.AddEntity | src/world.rs:40-68 | the uuid is the old next_uuid, nonzero and never issued before, and next_uuid goes up by 1; the idx is the last freed one (popped) or next_idx with a new empty component map; idx < uuid; the slot was free; the entity is valid and recorded in ent_changed; the invariant holds |
| Store.World.RemoveEntity | src/world.rs:72-74 | only ent_remove changes, gaining (idx, uuid); every handle keeps its validity until the commit |
| Store.World.RemoveValidEntity | src/world.rs:72-74 | corrected removal: only a valid handle is staged, so if every staged pair was live it stays so, and the commit frees every staged slot |
| Store.World.FreeSlot | src/world.rs:81-84 | a live slot is zeroed, its idx pushed, its components cleared, and the invariant kept |
| Store.World.CommitStaged | src/world.rs:79-86 | one loop step: the visited staged pair is freed exactly when it names a valid entity |
| Store.World.PropagateChanges | src/world.rs:77-91 | the committable slots (`Committable`: the staged pairs that still name a valid entity; stale pairs are ignored) are zeroed and their components cleared; exactly those indices are pushed after the old free list; both change maps end empty; counters unchanged; the invariant holds |
| Store.World.AddComponent | src/world.rs:115-120 | returns the previous value of that type; on a valid entity the value is stored in its own slot and read back; on an invalid one nothing changes |
| Store.World.HasComponent | src/world.rs:123-128 | true exactly when `get_component` finds a value, hence only for a valid entity |
| Store.World.GetComponent | src/world.rs:131-136 | a value is found only for a valid entity |
| Store.World.GetMutComponent | src/world.rs:139-144 | returns the current value; the caller's write replaces it and is seen by later reads; nothing changes for an invalid entity or a missing component |
| Store.World.Iterator | src/world.rs:147-152 | a new iterator over the current slot table with its cursor at 0 |
| Store.World.ListEntities | src/world.rs:156-161 | exactly the valid entities, each once, in increasing idx order |
| Scenarios.AddingAndDeletingEntities | tests/lib.rs:12-42 | the first entity is (0, 1); live entities differ in idx and uuid; a staged removal leaves the entity valid; after the commit the next entity is (0, 3) and the old handle is invalid |
| Scenarios.RemovedComponentUnreachable | tests/lib.rs:44-55 | after the removal of entity 2 is committed, a copy of its handle reaches none of its components |
| Scenarios.StaleRemovalCancelsLiveRemoval | src/world.rs:72-80 | staging the live (0, 3) and then the stale (0, 1) leaves (0, 3) valid after the commit |
| Scenarios.GuardedRemovalFreesLiveEntity | src/world.rs:72-80 | the same steps with the guarded removal remove (0, 3) |
| Scenarios.AddingAndGettingComponents | tests/lib.rs:59-101 | each entity reads back its own Position; an entity without one reads None |
| Scenarios.MutatingComponents | tests/lib.rs:104-128 | a write through `get_mut_component` is seen by the next access |
| Scenarios.TenEntities | tests/lib.rs:136-141 | ten additions give slots 0..9 with uuids 1..10, and Position on the even ones |
| Scenarios.IteratorTest | tests/lib.rs:132-158 | iterating ten fresh entities yields 10 items, 5 of them with a Position |
| Scenarios.StageEveryListed | tests/lib.rs:169-172 | the listing holds all ten entities, and each is staged for removal |
| Scenarios.EntityList | tests/lib.rs:161-177 | with the commit inserted, nothing is left to list or iterate after every listed entity is removed |

## Left out

- `AnyMap` and `std::any::Any`: each slot is an abstract `map<TypeTag, V>`, with one component value type per World.
- `usize` overflow of `next_idx` and `next_uuid`: the counters are unbounded `nat`s.
- Lifetimes and borrows:
  - the iterator holds an immutable copy of the slot table;
  - `get_mut_component`'s `&mut T` is the `edit` function applied in the same call.
- HashMap iteration order in `propagate_changes`: the loop visits staged keys in an arbitrary order, so the order of the pushed indices is not fixed.
- `Eq` and `Copy` are modelled from src/entity.rs, which the crate never declares as a module. The compiled `Entity` of src/lib.rs:10-13 has no derives, so it is neither `Copy` nor comparable; tests/lib.rs:45 copies its fields by hand.
- src/components.rs is not part of this model. It holds plain data wrappers and is never declared as a module.
- `println!` and `panic!` in tests/lib.rs are test output only.
- Store.World.PropagateChanges: its ensures does not state handle validity directly. `SlotTable.CommitValidity` states it about the `ZeroSlots` table that the ensures names.
- Tests that expect `remove_entity` to return `bool` or to remove at once (tests/lib.rs:32-39, 52-55, 170-176) contradict src/world.rs:72-74. The scenarios insert the `propagate_changes` call those steps need.
- `RemovedComponentUnreachable` reads the component through the identity edit, because the test only checks whether a value comes back.

## Findings

| source | as written | input that shows it | evidently intended | confidence | as-written member | corrected member |
|---|---|---|---|---|---|---|
| src/lib.rs:32 | after yielding slot `idx`, `next` sets `curr += 1`, so a hit found past free slots is yielded again | table [0, 2, 0] (add two entities, remove and commit the first): the iterator yields (1, 2) twice | `curr = idx + 1`: each live entity is yielded once, as `list_entities` lists them | not executed | Iteration.DrainRepeatsAfterFreedSlot | Iteration.DrainSkippingListsAll |
| src/world.rs:73 | `remove_entity` stages into a map keyed by idx alone, so a later handle for the same slot overwrites an earlier one, and a stale handle can cancel the staged removal of the live entity in that slot | add two entities, remove and commit the first, add (0, 3); then `remove_entity((0, 3))`, `remove_entity((0, 1))`, commit: (0, 3) is still valid | staging a stale handle is a no-op, so every staged live entity is removed at the commit | not executed | Scenarios.StaleRemovalCancelsLiveRemoval | Store.World.RemoveValidEntity |
