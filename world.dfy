/**
 * The `World` store of src/world.rs: a generational slot allocator with a
 * LIFO free list, one type-keyed component map per slot, and removals that
 * are staged and only carried out by `propagate_changes`.
 */
module Store {
  import opened Options
  import opened Entities
  import opened SlotTable
  import opened Iteration

  /** The key of a component map: the identity of the component's type. */
  datatype TypeTag = TypeOf(id: nat)

  /** The allocator state of a World, as a value. */
  datatype Tables<V> = Tables(
    nextIdx: nat,
    nextUuid: nat,
    active: seq<nat>,
    reusable: seq<nat>,
    components: seq<map<TypeTag, V>>,
    issued: set<nat>)

  /**
   * Every idx handed out is below `nextIdx`, which has a component map;
   * every uuid handed out is below `nextUuid`, and the slot table is long
   * enough to hold the next idx once the next uuid is issued.
   */
  ghost predicate CountersAgree<V>(t: Tables<V>)
  {
    && t.nextIdx < t.nextUuid <= |t.active| + 1
    && |t.components| == t.nextIdx
    && (forall u :: u in t.issued ==> 0 < u < t.nextUuid)
    && (forall i :: 0 <= i < |t.active| && t.active[i] != 0 ==> i < t.nextIdx && t.active[i] in t.issued)
  }

  /** No uuid occupies two slots. */
  ghost predicate UuidsDistinct(active: seq<nat>)
  {
    forall i, j :: 0 <= i < j < |active| && active[i] != 0 ==> active[i] != active[j]
  }

  /**
   * The free list holds, once each, exactly the allocated indices whose slot
   * is free, and a free slot has no components.
   */
  ghost predicate FreeListExact<V>(t: Tables<V>)
    requires t.nextIdx <= |t.active| && |t.components| == t.nextIdx
  {
    && (forall k :: 0 <= k < |t.reusable| ==> t.reusable[k] < t.nextIdx)
    && (forall k, l :: 0 <= k < l < |t.reusable| ==> t.reusable[k] != t.reusable[l])
    && (forall i :: 0 <= i < t.nextIdx ==> (t.active[i] == 0 <==> i in t.reusable))
    && (forall i :: 0 <= i < t.nextIdx && t.active[i] == 0 ==> t.components[i] == map[])
  }

  ghost predicate Consistent<V>(t: Tables<V>)
  {
    CountersAgree(t) && UuidsDistinct(t.active) && FreeListExact(t)
  }

  /** The component maps with the slots in `freed` emptied. */
  function ClearSlots<V>(components: seq<map<TypeTag, V>>, freed: set<nat>): (r: seq<map<TypeTag, V>>)
    ensures |r| == |components|
    ensures forall i :: 0 <= i < |r| ==> r[i] == if i in freed then map[] else components[i]
  {
    seq(|components|, i requires 0 <= i < |components| => if i in freed then map[] else components[i])
  }

  /** Emptying one more slot extends the set of cleared slots by that slot. */
  lemma ClearSlotsStep<V>(components: seq<map<TypeTag, V>>, freed: set<nat>, idx: nat)
    requires idx < |components|
    ensures ClearSlots(components, freed)[idx := map[]] == ClearSlots(components, freed + {idx})
  {
  }

  /** Allocation (pop or fresh idx, next uuid, padded table) keeps the invariant. */
  lemma AllocKeepsConsistent<V>(t: Tables<V>, idx: nat, t': Tables<V>)
    requires Consistent(t)
    requires if t.reusable != [] then
        && idx == t.reusable[|t.reusable| - 1]
        && t'.reusable == t.reusable[..|t.reusable| - 1]
        && t'.nextIdx == t.nextIdx && t'.components == t.components
      else
        && idx == t.nextIdx && t'.nextIdx == t.nextIdx + 1
        && t'.reusable == t.reusable && t'.components == t.components + [map[]]
    requires t'.nextUuid == t.nextUuid + 1 && t'.issued == t.issued + {t.nextUuid}
    requires idx < |Padded(t.active, t.nextUuid + 1)|
    requires t'.active == Padded(t.active, t.nextUuid + 1)[idx := t.nextUuid]
    ensures Consistent(t')
  {
    var p := Padded(t.active, t.nextUuid + 1);
    assert CountersAgree(t');
    assert UuidsDistinct(t'.active) by {
      forall i, j | 0 <= i < j < |t'.active| && t'.active[i] != 0
        ensures t'.active[i] != t'.active[j]
      {
        if i != idx && j != idx {
          assert t'.active[i] == t.active[i];
        }
      }
    }
    if t.reusable != [] {
      assert forall i :: i in t'.reusable <==> i in t.reusable && i != idx by {
        assert t.reusable == t'.reusable + [idx];
      }
    }
  }

  /** Freeing a live slot (zero it, push its idx, clear its components) keeps the invariant. */
  lemma FreeKeepsConsistent<V>(t: Tables<V>, idx: nat)
    requires Consistent(t) && idx < |t.active| && t.active[idx] != 0
    ensures Consistent(t.(
      active := t.active[idx := 0],
      reusable := t.reusable + [idx],
      components := t.components[idx := map[]]))
  {
    assert idx < t.nextIdx && idx !in t.reusable;
  }

  /** Visiting one pending key adds it to the done part of `freed` exactly when it is in `freed`. */
  lemma VisitPending(freed: set<nat>, pending: set<nat>, idx: nat)
    requires idx in pending
    ensures freed - (pending - {idx}) == if idx in freed then (freed - pending) + {idx} else freed - pending
  {
  }

  /** A free list extended by pushing exactly the slots of `freed`, in some order. */
  lemma PushedSuffix(before: seq<nat>, pushed: seq<nat>, freed: set<nat>)
    requires forall i :: i in pushed <==> i in freed
    ensures var after := before + pushed;
      && |before| <= |after| && after[..|before|] == before
      && (forall k :: |before| <= k < |after| ==> after[k] in freed)
      && (forall i :: i in freed ==> i in after[|before|..])
  {
    assert (before + pushed)[|before|..] == pushed;
  }

  class World<V> {
    var nextIdx: nat
    var nextUuid: nat
    /** Slot index to the uuid occupying it; `0` marks a free slot. */
    var active: seq<nat>
    /** Freed slot indices, used as a stack (last pushed is reused first). */
    var reusableIdxs: seq<nat>
    /** One component map per slot index ever allocated. */
    var components: seq<map<TypeTag, V>>
    /** Staged removals: idx to the uuid the caller asked to remove. */
    var entRemove: map<nat, nat>
    /** Entities added since the last commit: idx to uuid. */
    var entChanged: map<nat, nat>
    /** Every uuid handed out so far. */
    ghost var issued: set<nat>

    /** The fields the store's invariant is about, as one value. */
    ghost function Snapshot(): Tables<V>
      reads this
    {
      Tables(nextIdx, nextUuid, active, reusableIdxs, components, issued)
    }

    /** The store's invariant: slot table, free list, counters and component maps agree. */
    ghost predicate Valid()
      reads this
    {
      Consistent(Snapshot())
    }

    /** `World::new`: no slots, and uuids start at 1 because 0 marks a free slot. */
    constructor ()
      ensures Valid()
      ensures nextIdx == 0 && nextUuid == 1 && issued == {}
      ensures active == [] && reusableIdxs == [] && components == []
      ensures entRemove == map[] && entChanged == map[]
    {
      nextIdx := 0;
      nextUuid := 1;
      active := [];
      reusableIdxs := [];
      components := [];
      entRemove := map[];
      entChanged := map[];
      issued := {};
    }

    /**
     * `is_valid_entity`; an idx beyond the slot table is invalid, not an
     * error. Validity depends only on the uuid `get_uuid` reports for the
     * handle's slot.
     */
    predicate IsValidEntity(e: Entity): (r: bool)
      reads this
      ensures r ==> e.idx < |active|
      ensures r <==> e.uuid != 0 && GetUuid(e.idx) == e.uuid
    {
      IsLive(active, e)
    }

    /** `get_uuid`: the uuid in slot `idx`, or 0 when the slot is free or out of range. */
    function GetUuid(idx: nat): (r: nat)
      reads this
      ensures r != 0 ==> IsLive(active, Entity(idx, r))
      ensures r == 0 ==> forall u :: !IsLive(active, Entity(idx, u))
    {
      if idx < |active| then active[idx] else 0
    }

    /** A valid handle indexes an allocated component map and carries an issued uuid. */
    lemma ValidInBounds(e: Entity)
      requires Valid() && IsValidEntity(e)
      ensures e.idx < nextIdx == |components|
      ensures e.uuid in issued && 0 < e.uuid < nextUuid
    {
    }

    /** No two different valid handles share a slot or a uuid. */
    lemma ValidHandlesUnique(a: Entity, b: Entity)
      requires Valid() && IsValidEntity(a) && IsValidEntity(b)
      ensures a.idx == b.idx <==> a == b
      ensures a.uuid == b.uuid <==> a == b
    {
      assert forall i, j :: 0 <= i < |active| && 0 <= j < |active| && i != j && active[i] != 0 ==>
        active[i] != active[j];
    }

    /**
     * Lines 60-64 of `add_entity`: grows the slot table with free slots so
     * that it can hold `uuid`, then stores `uuid` in slot `idx`.
     */
    method Occupy(idx: nat, uuid: nat)
      requires idx < |Padded(active, uuid + 1)|
      modifies this`active
      ensures active == Padded(old(active), uuid + 1)[idx := uuid]
    {
      if |active| <= uuid {
        active := active + seq(uuid + 1 - |active|, _ => 0);
      }
      active := active[idx := uuid];
    }

    /**
     * `add_entity`: reuses the most recently freed idx, or allocates the
     * next one together with an empty component map; issues the next uuid,
     * grows the slot table to at least uuid + 1 slots and records the entity
     * as changed.
     */
    method AddEntity() returns (e: Entity)
      requires Valid()
      modifies this
      ensures Valid()
      ensures e.uuid == old(nextUuid) && nextUuid == old(nextUuid) + 1
      ensures e.uuid != 0 && e.uuid !in old(issued) && issued == old(issued) + {e.uuid}
      ensures if old(reusableIdxs) != [] then
          && e.idx == old(reusableIdxs)[|old(reusableIdxs)| - 1]
          && reusableIdxs == old(reusableIdxs)[..|old(reusableIdxs)| - 1]
          && nextIdx == old(nextIdx) && components == old(components)
        else
          && e.idx == old(nextIdx) && nextIdx == old(nextIdx) + 1
          && reusableIdxs == old(reusableIdxs)
          && components == old(components) + [map[]]
      ensures e.idx >= |old(active)| || old(active)[e.idx] == 0
      ensures e.idx < e.uuid && e.idx < |Padded(old(active), e.uuid + 1)|
      ensures active == Padded(old(active), e.uuid + 1)[e.idx := e.uuid]
      ensures entChanged == old(entChanged)[e.idx := e.uuid] && entRemove == old(entRemove)
      ensures IsValidEntity(e) && components[e.idx] == map[]
    {
      var idx: nat;
      if |reusableIdxs| > 0 {
        idx := reusableIdxs[|reusableIdxs| - 1];
        reusableIdxs := reusableIdxs[..|reusableIdxs| - 1];
        assert idx < |active| && active[idx] == 0;
      } else {
        idx := nextIdx;
        nextIdx := nextIdx + 1;
        components := components + [map[]];
        assert idx < |active| ==> active[idx] == 0;
      }

      var uuid := nextUuid;
      nextUuid := nextUuid + 1;
      issued := issued + {uuid};

      Occupy(idx, uuid);
      AllocKeepsConsistent(old(Snapshot()), idx, Snapshot());

      entChanged := entChanged[idx := uuid];
      e := Entity(idx, uuid);
    }

    /** `remove_entity`: only stages the removal; the entity stays valid until the commit. */
    method RemoveEntity(e: Entity)
      requires Valid()
      modifies this`entRemove
      ensures Valid()
      ensures entRemove == old(entRemove)[e.idx := e.uuid]
      ensures forall x :: IsValidEntity(x) <==> old(IsValidEntity(x))
    {
      entRemove := entRemove[e.idx := e.uuid];
    }

    /** Every staged removal names a valid entity. */
    ghost predicate StagedLive()
      reads this
    {
      forall i :: i in entRemove ==> IsLive(active, Entity(i, entRemove[i]))
    }

    /**
     * `remove_entity` with a validity guard: a handle that is not valid is
     * not staged, so it cannot replace the staged removal of the live entity
     * in its slot, and the commit frees every staged slot.
     */
    method RemoveValidEntity(e: Entity)
      requires Valid()
      modifies this`entRemove
      ensures Valid()
      ensures entRemove == if old(IsValidEntity(e)) then old(entRemove)[e.idx := e.uuid] else old(entRemove)
      ensures old(StagedLive()) ==> StagedLive() && Committable(active, entRemove) == entRemove.Keys
    {
      if IsValidEntity(e) {
        entRemove := entRemove[e.idx := e.uuid];
      }
      if StagedLive() {
        LiveStagingCommitsAll(active, entRemove);
      }
    }

    /**
     * Progress of the commit loop of `propagate_changes`, against the tables
     * `t0` before it: the visited slots of `freed` are zeroed, cleared and
     * pushed (in `pushed`) on the free list.
     */
    ghost predicate CommitProgress(t0: Tables<V>, freed: set<nat>, pending: set<nat>, pushed: seq<nat>)
      reads this
    {
      && active == ZeroSlots(t0.active, freed - pending)
      && components == ClearSlots(t0.components, freed - pending)
      && reusableIdxs == t0.reusable + pushed
      && (forall i :: i in pushed <==> i in freed && i !in pending)
    }

    /**
     * Lines 81-84 of `propagate_changes`: frees one live slot, with the slots
     * `done` of the tables `t0` already freed.
     */
    method FreeSlot(idx: nat, ghost t0: Tables<V>, ghost done: set<nat>)
      requires Valid() && idx < |active| && active[idx] != 0
      requires active == ZeroSlots(t0.active, done) && components == ClearSlots(t0.components, done)
      modifies this
      ensures Valid()
      ensures active == ZeroSlots(t0.active, done + {idx})
      ensures components == ClearSlots(t0.components, done + {idx})
      ensures reusableIdxs == old(reusableIdxs) + [idx]
      ensures nextIdx == old(nextIdx) && nextUuid == old(nextUuid) && issued == old(issued)
      ensures entRemove == old(entRemove) && entChanged == old(entChanged)
    {
      FreeKeepsConsistent(Snapshot(), idx);
      ZeroSlotsStep(t0.active, done, idx);
      ClearSlotsStep(t0.components, done, idx);
      active := active[idx := 0];
      reusableIdxs := reusableIdxs + [idx];
      components := components[idx := map[]];
    }

    /**
     * One iteration of the loop of `propagate_changes` (lines 79-86): if the
     * staged pair for `idx` is a valid entity, its slot is zeroed, its idx
     * pushed on the free list and its components cleared.
     */
    method CommitStaged(idx: nat, ghost t0: Tables<V>, ghost freed: set<nat>, ghost pending: set<nat>, ghost pushed: seq<nat>)
      returns (ghost pushed': seq<nat>)
      requires Valid() && idx in pending && pending <= entRemove.Keys
      requires freed == Committable(t0.active, entRemove)
      requires CommitProgress(t0, freed, pending, pushed)
      modifies this
      ensures Valid() && CommitProgress(t0, freed, pending - {idx}, pushed')
      ensures nextIdx == old(nextIdx) && nextUuid == old(nextUuid) && issued == old(issued)
      ensures entRemove == old(entRemove) && entChanged == old(entChanged)
    {
      VisitPending(freed, pending, idx);
      if IsValidEntity(Entity(idx, entRemove[idx])) {
        FreeSlot(idx, t0, freed - pending);
        pushed' := pushed + [idx];
      } else {
        pushed' := pushed;
      }
    }

    /**
     * `propagate_changes`: frees every staged slot whose pair still names a
     * valid entity (slot zeroed, idx pushed on the free list, components
     * cleared), then empties both change maps. The staged map is visited in
     * an unspecified order, so only the set of pushed indices is fixed.
     */
    method PropagateChanges()
      requires Valid()
      modifies this
      ensures Valid()
      ensures entRemove == map[] && entChanged == map[]
      ensures nextIdx == old(nextIdx) && nextUuid == old(nextUuid) && issued == old(issued)
      ensures var freed := Committable(old(active), old(entRemove));
        && active == ZeroSlots(old(active), freed)
        && components == ClearSlots(old(components), freed)
        && |old(reusableIdxs)| <= |reusableIdxs|
        && reusableIdxs[..|old(reusableIdxs)|] == old(reusableIdxs)
        && (forall k :: |old(reusableIdxs)| <= k < |reusableIdxs| ==> reusableIdxs[k] in freed)
        && (forall i :: i in freed ==> i in reusableIdxs[|old(reusableIdxs)|..])
    {
      ghost var t0 := Snapshot();
      ghost var freed := Committable(active, entRemove);
      ghost var pushed: seq<nat> := [];
      var pending := entRemove.Keys;
      while pending != {}
        invariant Valid()
        invariant pending <= entRemove.Keys && entRemove == old(entRemove)
        invariant nextIdx == old(nextIdx) && nextUuid == old(nextUuid) && issued == old(issued)
        invariant CommitProgress(t0, freed, pending, pushed)
        decreases pending
      {
        var idx :| idx in pending;
        pushed := CommitStaged(idx, t0, freed, pending, pushed);
        pending := pending - {idx};
      }
      PushedSuffix(t0.reusable, pushed, freed);
      entRemove := map[];
      entChanged := map[];
    }

    /**
     * `add_component`: on a valid entity, stores `value` under `tag` and
     * returns the value it replaces; on an invalid one, changes nothing.
     */
    method AddComponent(e: Entity, tag: TypeTag, value: V) returns (prev: Option<V>)
      requires Valid()
      modifies this`components
      ensures Valid()
      ensures prev == old(GetComponent(e, tag))
      ensures if old(IsValidEntity(e)) then
          components == old(components)[e.idx := old(components)[e.idx][tag := value]]
        else
          components == old(components)
      ensures GetComponent(e, tag) == if IsValidEntity(e) then Some(value) else None
    {
      if IsValidEntity(e) {
        var slot := components[e.idx];
        prev := if tag in slot then Some(slot[tag]) else None;
        components := components[e.idx := slot[tag := value]];
        return;
      }
      prev := None;
    }

    /** `has_component`: a lookup in the entity's own slot, false for an invalid entity. */
    function HasComponent(e: Entity, tag: TypeTag): (r: bool)
      requires Valid()
      reads this
      ensures r ==> IsValidEntity(e)
      ensures r <==> GetComponent(e, tag).Some?
    {
      if IsValidEntity(e) then
        ValidInBounds(e);
        tag in components[e.idx]
      else false
    }

    /** `get_component`: the entity's own value for `tag`, None for an invalid entity. */
    function GetComponent(e: Entity, tag: TypeTag): (r: Option<V>)
      requires Valid()
      reads this
      ensures r.Some? ==> IsValidEntity(e)
    {
      if IsValidEntity(e) then
        ValidInBounds(e);
        if tag in components[e.idx] then Some(components[e.idx][tag]) else None
      else None
    }

    /**
     * `get_mut_component`: the `&mut T` it returns is modelled by `edit`,
     * the write the caller makes through it. Returns the value the reference
     * pointed at; nothing changes for an invalid entity or an absent component.
     */
    method GetMutComponent(e: Entity, tag: TypeTag, edit: V -> V) returns (r: Option<V>)
      requires Valid()
      modifies this`components
      ensures Valid()
      ensures r == old(GetComponent(e, tag))
      ensures if r.Some? then
          components == old(components)[e.idx := old(components)[e.idx][tag := edit(r.value)]]
        else
          components == old(components)
      ensures GetComponent(e, tag) == if r.Some? then Some(edit(r.value)) else None
    {
      if IsValidEntity(e) {
        var slot := components[e.idx];
        if tag in slot {
          r := Some(slot[tag]);
          components := components[e.idx := slot[tag := edit(slot[tag])]];
          return;
        }
      }
      r := None;
    }

    /** `iterator`: a cursor at slot 0 over the current slot table. */
    method Iterator() returns (it: EntityIterator)
      ensures fresh(it) && it.active == active && it.curr == 0
    {
      it := new EntityIterator(active);
    }

    /**
     * `list_entities`: exactly the valid entities, one per occupied slot,
     * in increasing idx order.
     */
    function ListEntities(): (r: seq<Entity>)
      reads this
      ensures forall k :: 0 <= k < |r| ==> IsValidEntity(r[k])
      ensures forall e :: IsValidEntity(e) ==> e in r
      ensures IdxIncreasing(r)
    {
      LiveFromSorted(active, 0);
      LiveFromComplete(active, 0);
      LiveFrom(active, 0)
    }
  }
}
