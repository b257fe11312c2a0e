/**
 * The integration tests of tests/lib.rs, as clients of the World. Where a
 * test expects a removal to take effect at once, the commit that the staged
 * removal needs is inserted.
 */
module Scenarios {
  import opened Options
  import opened Entities
  import opened SlotTable
  import opened Iteration
  import opened Store

  /** The test component. */
  datatype Position = Position(x: nat, y: nat)

  const PositionTag: TypeTag := TypeOf(0)

  /** The opening of several tests: a new World and two entities. */
  method TwoEntities() returns (w: World<Position>, e1: Entity, e2: Entity)
    ensures fresh(w) && w.Valid()
    ensures e1 == Entity(0, 1) && e2 == Entity(1, 2)
    ensures w.nextIdx == 2 && w.nextUuid == 3 && w.reusableIdxs == []
    ensures w.active == [1, 2, 0] && w.components == [map[], map[]] && w.entRemove == map[]
  {
    w := new World<Position>();
    e1 := w.AddEntity();
    assert w.active == [1, 0];
    e2 := w.AddEntity();
  }

  /**
   * The opening of `adding_and_deleting_entities`: two entities, a staged
   * removal of the first (which leaves it valid) and the commit.
   */
  method DeleteFirst() returns (w: World<Position>, e1: Entity, e2: Entity, stagedStillValid: bool)
    ensures fresh(w) && w.Valid() && stagedStillValid
    ensures e1 == Entity(0, 1) && e2 == Entity(1, 2)
    ensures w.active == [0, 2, 0] && w.nextIdx == 2 && w.nextUuid == 3 && w.entRemove == map[]
    ensures w.reusableIdxs != [] && w.reusableIdxs[|w.reusableIdxs| - 1] == 0
  {
    w, e1, e2 := TwoEntities();
    w.RemoveEntity(e1);
    stagedStillValid := w.IsValidEntity(e1);
    assert Committable(w.active, w.entRemove) == {0};
    w.PropagateChanges();
  }

  /** Continues `DeleteFirst`: a third entity reuses the freed idx with the next uuid. */
  method DeleteFirstAndReuse() returns (w: World<Position>, e1: Entity, e2: Entity, e3: Entity, stagedStillValid: bool)
    ensures fresh(w) && w.Valid() && stagedStillValid
    ensures e1 == Entity(0, 1) && e2 == Entity(1, 2) && e3 == Entity(0, 3)
    ensures w.active == [3, 2, 0, 0] && w.nextIdx == 2 && w.entRemove == map[]
  {
    w, e1, e2, stagedStillValid := DeleteFirst();
    e3 := w.AddEntity();
  }

  /**
   * `adding_and_deleting_entities`, first half: the first entity is (0, 1);
   * the two live entities differ in idx and uuid; after the commit the idx
   * of the first is reused with uuid 3 and the old handle is invalid.
   */
  method AddingAndDeletingEntities()
    returns (e1: Entity, e2: Entity, e3: Entity, stagedStillValid: bool, staleValid: bool)
    ensures e1 == Entity(0, 1) && e1.idx != e2.idx && e1.uuid != e2.uuid
    ensures e3 == Entity(0, 3) && e1.idx == e3.idx && !Eq(e1, e3)
    ensures stagedStillValid && !staleValid
  {
    var w;
    w, e1, e2, e3, stagedStillValid := DeleteFirstAndReuse();
    staleValid := w.IsValidEntity(e1);
  }

  /**
   * `adding_and_deleting_entities`, second half: once the removal of the
   * second entity is committed, a copy of its handle reaches none of its
   * components.
   */
  method RemovedComponentUnreachable() returns (viaCopy: Option<Position>)
    ensures viaCopy == None
  {
    var w, e1, e2, e3, _ := DeleteFirstAndReuse();
    var e2Copy := Copy(e2);
    var _ := w.AddComponent(e2, PositionTag, Position(3, 10));
    w.RemoveEntity(e2);
    assert 1 in Committable(w.active, w.entRemove);
    w.PropagateChanges();
    viaCopy := w.GetMutComponent(e2Copy, PositionTag, p => p);
  }

  /**
   * `remove_entity` as written: staging the live entity (0, 3) and then the
   * stale handle (0, 1) of the same slot keeps only the stale pair, so the
   * commit leaves (0, 3) valid.
   */
  method StaleRemovalCancelsLiveRemoval() returns (liveAfterCommit: bool)
    ensures liveAfterCommit
  {
    var w, e1, e2, e3, _ := DeleteFirstAndReuse();
    w.RemoveEntity(e3);
    w.RemoveEntity(e1);
    assert w.entRemove == map[0 := 1];
    assert 0 !in Committable(w.active, w.entRemove);
    w.PropagateChanges();
    liveAfterCommit := w.IsValidEntity(e3);
  }

  /** The same steps with the guarded removal: the stale handle is not staged and (0, 3) is removed. */
  method GuardedRemovalFreesLiveEntity() returns (liveAfterCommit: bool)
    ensures !liveAfterCommit
  {
    var w, e1, e2, e3, _ := DeleteFirstAndReuse();
    w.RemoveValidEntity(e3);
    w.RemoveValidEntity(e1);
    assert w.entRemove == map[0 := 3];
    assert 0 in Committable(w.active, w.entRemove);
    w.PropagateChanges();
    liveAfterCommit := w.IsValidEntity(e3);
  }

  /** Two entities, each given a Position, the second one first. */
  method PositionedPair() returns (w: World<Position>, e1: Entity, e2: Entity)
    ensures fresh(w) && w.Valid()
    ensures e1 == Entity(0, 1) && e2 == Entity(1, 2)
    ensures w.nextIdx == 2 && w.nextUuid == 3 && w.reusableIdxs == []
    ensures w.active == [1, 2, 0] && w.entRemove == map[]
    ensures w.components == [map[PositionTag := Position(10, 12)], map[PositionTag := Position(5, 7)]]
  {
    w, e1, e2 := TwoEntities();
    var _ := w.AddComponent(e2, PositionTag, Position(5, 7));
    var _ := w.AddComponent(e1, PositionTag, Position(10, 12));
  }

  /** `adding_and_getting_components`: each entity reads back its own component. */
  method AddingAndGettingComponents() returns (p1: Option<Position>, p2: Option<Position>, p3: Option<Position>)
    ensures p1 == Some(Position(10, 12)) && p2 == Some(Position(5, 7)) && p3 == None
  {
    var w, e1, e2 := PositionedPair();
    var e3 := w.AddEntity();
    var e4 := w.AddEntity();
    assert e3 == Entity(2, 3) && e4 == Entity(3, 4);
    var _ := w.AddComponent(e4, PositionTag, Position(3, 14));

    p1 := w.GetComponent(e1, PositionTag);
    p2 := w.GetComponent(e2, PositionTag);
    p3 := w.GetComponent(e3, PositionTag);
  }

  /** `mutating_components`: a write through `get_mut_component` is seen by the next access. */
  method MutatingComponents() returns (before: Option<Position>, after: Option<Position>)
    ensures before == Some(Position(4, 13)) && after == Some(Position(10, 14))
  {
    var w, e1, e2 := TwoEntities();
    var _ := w.AddComponent(e1, PositionTag, Position(4, 13));
    var _ := w.AddComponent(e2, PositionTag, Position(8, 0));

    before := w.GetMutComponent(e1, PositionTag, p => Position(10, 14));
    after := w.GetMutComponent(e1, PositionTag, p => p);
  }

  /** Adds ten entities, giving a Position to those added at an even step. */
  method TenEntities() returns (w: World<Position>)
    ensures fresh(w) && w.Valid()
    ensures w.nextIdx == 10 && w.reusableIdxs == [] && |w.active| == 11
    ensures forall j :: 0 <= j < |w.active| ==> w.active[j] == if j < 10 then j + 1 else 0
    ensures forall j :: 0 <= j < 10 ==> (PositionTag in w.components[j] <==> j % 2 == 0)
  {
    w := new World<Position>();
    var i := 0;
    while i < 10
      invariant i <= 10 && w.Valid()
      invariant w.nextIdx == i && w.nextUuid == i + 1 && w.reusableIdxs == []
      invariant w.active == Numbered(i)
      invariant forall j :: 0 <= j < i ==> (PositionTag in w.components[j] <==> j % 2 == 0)
    {
      var ent := w.AddEntity();
      NumberedStep(i);
      if i % 2 == 0 {
        var _ := w.AddComponent(ent, PositionTag, Position(i, i * 2));
      }
      i := i + 1;
    }
  }

  /** The slot table after `n` additions to a new World: slot `j < n` holds uuid `j + 1`. */
  function Numbered(n: nat): (r: seq<nat>)
    ensures |r| == if n == 0 then 0 else n + 1
    ensures forall j :: 0 <= j < |r| ==> r[j] == if j < n then j + 1 else 0
  {
    if n == 0 then [] else seq(n + 1, j requires 0 <= j <= n => if j < n then j + 1 else 0)
  }

  /** One more addition takes the numbered table from `n` to `n + 1` entries. */
  lemma NumberedStep(n: nat)
    ensures n < |Padded(Numbered(n), n + 2)|
    ensures Padded(Numbered(n), n + 2)[n := n + 1] == Numbered(n + 1)
  {
  }

  /** `iterator_test`: ten fresh entities are iterated once each; five have a Position. */
  method IteratorTest() returns (iterCount: nat, posCount: nat)
    ensures iterCount == 10 && posCount == 5
  {
    var w := TenEntities();
    var it := w.Iterator();
    ghost var active0, components0 := w.active, w.components;
    iterCount, posCount := 0, 0;
    while true
      invariant w.Valid() && w.active == active0 && w.components == components0
      invariant it.active == w.active && it.curr == iterCount <= 10
      invariant posCount == (iterCount + 1) / 2
      decreases 10 - iterCount
    {
      var next := it.Next();
      if next.None? {
        break;
      }
      iterCount := iterCount + 1;
      if w.GetComponent(next.value, PositionTag).Some? {
        posCount := posCount + 1;
      }
    }
  }

  /**
   * The loop of `entity_list` that stages the removal of every listed
   * entity of `TenEntities`; nothing is removed yet.
   */
  method StageEveryListed(w: World<Position>) returns (list: seq<Entity>)
    requires w.Valid() && |w.active| == 11
    requires forall j :: 0 <= j < |w.active| ==> w.active[j] == if j < 10 then j + 1 else 0
    modifies w
    ensures w.Valid() && w.active == old(w.active)
    ensures list == w.ListEntities() && |list| == 10
    ensures forall i :: 0 <= i < 10 ==> i in w.entRemove && w.entRemove[i] == i + 1
  {
    list := w.ListEntities();
    LivePrefixListing(w.active, 10, 0);
    for k := 0 to |list|
      invariant w.Valid() && w.active == old(w.active) && w.ListEntities() == list
      invariant forall m :: 0 <= m < k ==> m in w.entRemove && w.entRemove[m] == m + 1
    {
      w.RemoveEntity(list[k]);
    }
  }

  /**
   * `entity_list`, with the commit inserted: staging every listed entity
   * keeps all ten listed until the commit, after which nothing is left.
   */
  method EntityList() returns (listedBeforeCommit: nat, leftAfterCommit: seq<Entity>, first: Option<Entity>)
    ensures listedBeforeCommit == 10 && leftAfterCommit == [] && first == None
  {
    var w := TenEntities();
    var list := StageEveryListed(w);
    listedBeforeCommit := |list|;

    assert forall i :: 0 <= i < 10 ==> i in Committable(w.active, w.entRemove);
    w.PropagateChanges();
    assert forall i :: 0 <= i < |w.active| ==> w.active[i] == 0;
    LiveFromSkipsFree(w.active, 0, |w.active|);
    leftAfterCommit := w.ListEntities();
    var it := w.Iterator();
    first := it.Next();
  }
}
