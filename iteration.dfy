/**
 * `EntityIterator` of src/lib.rs: a cursor `curr` over a read-only snapshot
 * of the slot table, yielding the entities of the nonzero slots.
 */
module Iteration {
  import opened Options
  import opened Entities
  import opened SlotTable

  /** The entity of the first nonzero slot at or after `from`, if there is one. */
  function FirstLive(active: seq<nat>, from: nat): (r: Option<Entity>)
    decreases |active| - from
    ensures r.Some? ==> from <= r.value.idx < |active| && IsLive(active, r.value)
    ensures r.Some? ==> forall j :: from <= j < r.value.idx ==> active[j] == 0
    ensures r.None? <==> forall j :: from <= j < |active| ==> active[j] == 0
  {
    if from >= |active| then None
    else if active[from] != 0 then Some(Entity(from, active[from]))
    else FirstLive(active, from + 1)
  }

  class EntityIterator {
    /** The borrowed `&Vec<usize>`: the iterator can only read it. */
    const active: seq<nat>
    var curr: nat

    /** `World::iterator` builds the iterator with its cursor at slot 0. */
    constructor (active: seq<nat>)
      ensures this.active == active && curr == 0
    {
      this.active := active;
      curr := 0;
    }

    /**
     * `Iterator::next`: scans from `curr` for a nonzero slot. On a hit the
     * cursor moves forward by exactly one, not past the slot found.
     */
    method Next() returns (r: Option<Entity>)
      modifies this
      ensures r == FirstLive(active, old(curr))
      ensures r.Some? ==> r.value.idx < |active| && r.value.uuid == active[r.value.idx] != 0
      ensures curr == if r.Some? then old(curr) + 1 else old(curr)
    {
      var idx := curr;
      while idx < |active|
        invariant curr == old(curr) <= idx
        invariant FirstLive(active, idx) == FirstLive(active, curr)
      {
        if active[idx] != 0 {
          curr := curr + 1;
          return Some(Entity(idx, active[idx]));
        }
        idx := idx + 1;
      }
      return None;
    }
  }

  /** Everything that repeated calls of `Next` yield, starting with the cursor at `curr`. */
  function Drain(active: seq<nat>, curr: nat): (r: seq<Entity>)
    decreases |active| - curr
    ensures forall k :: 0 <= k < |r| ==> curr <= r[k].idx && IsLive(active, r[k])
  {
    match FirstLive(active, curr)
    case None => []
    case Some(e) => [e] + Drain(active, curr + 1)
  }

  /** A successful `Next` that had to skip a free slot finds the same entity again. */
  lemma GapYieldsAgain(active: seq<nat>, curr: nat, e: Entity)
    requires FirstLive(active, curr) == Some(e) && curr < e.idx
    ensures FirstLive(active, curr + 1) == Some(e)
  {
  }

  /**
   * When the nonzero slots are exactly a prefix `[0, n)` of the table (as
   * after `n` additions and no commit), draining from `curr <= n` yields each
   * live entity once, in increasing idx order.
   */
  lemma {:induction false} DrainOfLivePrefix(active: seq<nat>, n: nat, curr: nat)
    requires n <= |active| && curr <= n
    requires forall j :: 0 <= j < n ==> active[j] != 0
    requires forall j :: n <= j < |active| ==> active[j] == 0
    ensures Drain(active, curr) == LiveFrom(active, curr)
    ensures |Drain(active, curr)| == n - curr
    decreases n - curr
  {
    if curr < n {
      assert FirstLive(active, curr) == Some(Entity(curr, active[curr]));
      DrainOfLivePrefix(active, n, curr + 1);
    } else {
      LiveFromSkipsFree(active, curr, |active|);
    }
  }

  /**
   * The cursor bump as written: after `add`, `add`, removal of the first
   * entity and a commit, the table is `[0, 2, 0]` and the iterator yields
   * the second entity twice, while the listing holds it once.
   */
  lemma DrainRepeatsAfterFreedSlot()
    ensures Drain([0, 2, 0], 0) == [Entity(1, 2), Entity(1, 2)]
    ensures LiveFrom([0, 2, 0], 0) == [Entity(1, 2)]
  {
    assert FirstLive([0, 2, 0], 0) == Some(Entity(1, 2));
    assert FirstLive([0, 2, 0], 1) == Some(Entity(1, 2));
    assert FirstLive([0, 2, 0], 2) == None;
  }

  /** The evidently intended iteration: the cursor moves past the slot just yielded. */
  function DrainSkipping(active: seq<nat>, curr: nat): (r: seq<Entity>)
    decreases |active| - curr
  {
    match FirstLive(active, curr)
    case None => []
    case Some(e) => [e] + DrainSkipping(active, e.idx + 1)
  }

  /** The listing from `curr` starts with the first live slot at or after `curr`. */
  lemma LiveFromAtFirst(active: seq<nat>, curr: nat, e: Entity)
    requires FirstLive(active, curr) == Some(e)
    ensures LiveFrom(active, curr) == [e] + LiveFrom(active, e.idx + 1)
  {
    LiveFromSkipsFree(active, curr, e.idx);
  }

  /** With the corrected cursor, iteration yields exactly the listing, for every table. */
  lemma {:induction false} DrainSkippingListsAll(active: seq<nat>, curr: nat)
    ensures DrainSkipping(active, curr) == LiveFrom(active, curr)
    decreases |active| - curr
  {
    match FirstLive(active, curr)
    case None =>
      if curr < |active| {
        LiveFromSkipsFree(active, curr, |active|);
      }
    case Some(e) =>
      LiveFromAtFirst(active, curr, e);
      DrainSkippingListsAll(active, e.idx + 1);
  }
}
