/**
 * Value-level reading of the slot table `active` of src/world.rs: slot `i`
 * holds the uuid of the entity occupying it, `0` meaning the slot is free.
 */
module SlotTable {
  import opened Entities

  /** `is_valid_entity`: the handle's idx is in range and its slot holds its nonzero uuid. */
  predicate IsLive(active: seq<nat>, e: Entity)
  {
    if e.idx < |active| then active[e.idx] != 0 && e.uuid == active[e.idx] else false
  }

  /** `active.resize(n, 0)` when the table is shorter than `n`. */
  function Padded(active: seq<nat>, n: nat): (r: seq<nat>)
    ensures |r| == if |active| < n then n else |active|
    ensures forall i :: 0 <= i < |r| ==> r[i] == if i < |active| then active[i] else 0
  {
    if |active| < n then active + seq(n - |active|, _ => 0) else active
  }

  /**
   * Occupying a free slot (after growing the table) keeps every live handle
   * live and makes the new one live.
   */
  lemma OccupyKeepsLive(active: seq<nat>, n: nat, idx: nat, uuid: nat, x: Entity)
    requires idx < |Padded(active, n)| && (idx >= |active| || active[idx] == 0) && uuid != 0
    ensures IsLive(active, x) ==> IsLive(Padded(active, n)[idx := uuid], x)
    ensures IsLive(Padded(active, n)[idx := uuid], Entity(idx, uuid))
  {
  }

  /**
   * The slots that a commit frees: those staged pairs `(idx, uuid)` that
   * still name a live entity; stale pairs are ignored.
   */
  function Committable(active: seq<nat>, staged: map<nat, nat>): (d: set<nat>)
    ensures forall i :: i in d ==> i in staged && i < |active| && active[i] != 0
    ensures forall i :: i in staged ==> (i in d <==> IsLive(active, Entity(i, staged[i])))
  {
    set i | i in staged && IsLive(active, Entity(i, staged[i]))
  }

  /** The slot table with the slots in `freed` zeroed. */
  function ZeroSlots(active: seq<nat>, freed: set<nat>): (r: seq<nat>)
    ensures |r| == |active|
    ensures forall i :: 0 <= i < |r| ==> r[i] == if i in freed then 0 else active[i]
  {
    seq(|active|, i requires 0 <= i < |active| => if i in freed then 0 else active[i])
  }

  /** Zeroing one more slot extends the set of zeroed slots by that slot. */
  lemma ZeroSlotsStep(active: seq<nat>, freed: set<nat>, idx: nat)
    requires idx < |active|
    ensures ZeroSlots(active, freed)[idx := 0] == ZeroSlots(active, freed + {idx})
  {
  }

  /**
   * After a commit frees the committable slots, a handle is valid exactly
   * when it was valid before and was not itself the staged pair for its slot.
   */
  lemma CommitValidity(active: seq<nat>, staged: map<nat, nat>, x: Entity)
    ensures IsLive(ZeroSlots(active, Committable(active, staged)), x) <==>
      IsLive(active, x) && !(x.idx in staged && staged[x.idx] == x.uuid)
  {
  }

  /**
   * The staged removals are keyed by idx, so staging a second handle for a
   * slot replaces the first. A stale handle staged after a live one cancels
   * the live one's removal: the commit leaves the live entity valid.
   */
  lemma RestagedSlotIsKept(active: seq<nat>, staged: map<nat, nat>, e: Entity, stale: nat)
    requires IsLive(active, e) && stale != e.uuid
    ensures e.idx !in Committable(active, staged[e.idx := stale])
    ensures IsLive(ZeroSlots(active, Committable(active, staged[e.idx := stale])), e)
  {
  }

  /**
   * When every staged pair names a live entity, the commit frees every
   * staged slot and no staged handle is valid afterwards.
   */
  lemma LiveStagingCommitsAll(active: seq<nat>, staged: map<nat, nat>)
    requires forall i :: i in staged ==> IsLive(active, Entity(i, staged[i]))
    ensures Committable(active, staged) == staged.Keys
    ensures forall i :: i in staged ==> !IsLive(ZeroSlots(active, Committable(active, staged)), Entity(i, staged[i]))
  {
  }

  /**
   * The pairs `(idx, active[idx])` of the nonzero slots at or after `from`,
   * in increasing idx order (the enumerate/filter/map of `list_entities`).
   */
  function LiveFrom(active: seq<nat>, from: nat): (r: seq<Entity>)
    decreases |active| - from
    ensures forall k :: 0 <= k < |r| ==> from <= r[k].idx && IsLive(active, r[k])
  {
    if from >= |active| then []
    else (if active[from] != 0 then [Entity(from, active[from])] else []) + LiveFrom(active, from + 1)
  }

  /** Handles listed in strictly increasing idx order, so no slot appears twice. */
  predicate IdxIncreasing(r: seq<Entity>)
  {
    forall k, l :: 0 <= k < l < |r| ==> r[k].idx < r[l].idx
  }

  /** The listing is in strictly increasing idx order. */
  lemma {:induction false} LiveFromSorted(active: seq<nat>, from: nat)
    ensures IdxIncreasing(LiveFrom(active, from))
    decreases |active| - from
  {
    if from < |active| {
      LiveFromSorted(active, from + 1);
      var rest := LiveFrom(active, from + 1);
      if active[from] != 0 {
        var r := LiveFrom(active, from);
        assert r == [Entity(from, active[from])] + rest;
        assert IdxIncreasing(rest);
        forall k, l | 0 <= k < l < |r|
          ensures r[k].idx < r[l].idx
        {
          assert r[l] == rest[l - 1];
          if k > 0 {
            assert r[k] == rest[k - 1];
          }
        }
      }
    }
  }

  /** Every nonzero slot at or after `from` is listed. */
  lemma {:induction false} LiveFromComplete(active: seq<nat>, from: nat)
    ensures forall i :: from <= i < |active| && active[i] != 0 ==> Entity(i, active[i]) in LiveFrom(active, from)
    decreases |active| - from
  {
    if from < |active| {
      LiveFromComplete(active, from + 1);
    }
  }

  /** Zero slots contribute nothing to the listing. */
  lemma {:induction false} LiveFromSkipsFree(active: seq<nat>, from: nat, to: nat)
    requires from <= to <= |active|
    requires forall j :: from <= j < to ==> active[j] == 0
    ensures LiveFrom(active, from) == LiveFrom(active, to)
    decreases (to as int) - (from as int)
  {
    if from < to {
      LiveFromSkipsFree(active, from + 1, to);
    }
  }

  /**
   * When the nonzero slots are exactly the prefix `[0, n)`, the listing
   * from `from` is the slots `from .. n - 1` in order.
   */
  lemma {:induction false} LivePrefixListing(active: seq<nat>, n: nat, from: nat)
    requires n <= |active| && from <= n
    requires forall j :: 0 <= j < n ==> active[j] != 0
    requires forall j :: n <= j < |active| ==> active[j] == 0
    ensures |LiveFrom(active, from)| == n - from
    ensures forall k :: 0 <= k < n - from ==> LiveFrom(active, from)[k] == Entity(from + k, active[from + k])
    decreases n - from
  {
    if from < n {
      LivePrefixListing(active, n, from + 1);
      var rest := LiveFrom(active, from + 1);
      var l := LiveFrom(active, from);
      assert l == [Entity(from, active[from])] + rest;
      forall k | 0 < k < n - from
        ensures l[k] == Entity(from + k, active[from + k])
      {
        assert l[k] == rest[k - 1];
      }
    } else {
      LiveFromSkipsFree(active, from, |active|);
    }
  }
}
