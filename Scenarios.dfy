/** Short client runs that pin down behaviour the registry's code has and its comments leave open:
    which id is reissued first, what becomes of the reserved id 0, and how outside holders gate
    Release. */
module Scenarios {
  import opened Lists
  import opened Records
  import opened Registry
  import opened Entities
  import opened Components

  /** Claiming id 5 in a fresh allocator materialises 1 .. 4 as erased; the next plain
      CreateNewEntity reissues the oldest of them, 1, and not 5's successor. */
  method GapIdsReissuedOldestFirst() returns (claimed: nat, next: nat)
    ensures claimed == 5 && next == 1
  {
    var es := new EntitySystem();
    claimed := es.CreateNewEntityUnderId(5);
    next := es.CreateNewEntity();
  }

  /** Delete(0) succeeds in a fresh allocator (id 0 is live, and is the top), so the next
      CreateNewEntity hands out 0 again. */
  method ReservedIdCanBeReissued() returns (deleted: bool, next: nat)
    ensures deleted && next == 0
  {
    var es := new EntitySystem();
    deleted := es.Delete(0);
    assert es.entities == [] && es.erased == [];
    next := es.CreateNewEntity();
  }

  /** A handle held outside the registry blocks Release; once it is dropped Release succeeds. */
  method HoldersGateRelease() returns (whileHeld: bool, afterDrop: bool)
    ensures !whileHeld && afterDrop
  {
    var cs := new ComponentSystem();
    var c := cs.CreateComponent(1, 3);
    cs.Acquire(1);
    ReleaseKeepsCoherent(cs.State(), 1);
    whileHeld := cs.Release(1);
    cs.Drop(1);
    ReleaseKeepsCoherent(cs.State(), 1);
    afterDrop := cs.Release(1);
  }

  /** Deleting a component below the top recycles its id, and the next CreateComponent takes that id
      instead of growing storage. */
  method RecycledBeforeGrowth() returns (first: Option<Component>, reused: Option<Component>)
    ensures first == Some(Component(1, 1, 3))
    ensures reused == Some(Component(1, 2, 4))
  {
    var cs := new ComponentSystem();
    first := cs.CreateComponent(1, 3);
    var second := cs.CreateComponent(1, 3);
    DeleteComponentKeepsCoherent(cs.State(), 1);
    var ok := cs.DeleteComponent(1);
    assert cs.erased == [1];
    reused := cs.CreateComponent(2, 4);
  }

  /** Deleting the component in the top slot pops it instead of recycling its id. */
  method TopSlotPopped() returns (size: nat, recycled: nat)
    ensures size == 1 && recycled == 0
  {
    var cs := new ComponentSystem();
    var c := cs.CreateComponent(1, 3);
    DeleteComponentKeepsCoherent(cs.State(), 1);
    var ok := cs.DeleteComponent(1);
    size := cs.Size();
    recycled := cs.ErasedIDSize();
  }

  /** Entity 1's records, (1, 1, 3) and (3, 1, 4), and entity 2's, (2, 2, 3). */
  const C1 := Component(1, 1, 3)
  const C2 := Component(2, 2, 3)
  const C3 := Component(3, 1, 4)

  /** The tables after CreateComponent (1, 3), (2, 3) and (1, 4) in a fresh registry. */
  function CascadeBefore(): (t: Tables)
    ensures Basic(t)
  {
    Tables([Empty, Live(C1, 0), Live(C2, 0), Live(C3, 0)], [], [[], [C1, C3], [C2]],
           map[3 := [C1, C2], 4 := [C3]])
  }

  /** The first record goes to the end of storage, growing the entity index to reach entity 1. */
  lemma CascadeCreate1()
    ensures Created(Initial(), 1, 3).0 == Tables([Empty, Live(C1, 0)], [], [[], [C1]], map[3 := [C1]])
  {
    var r := Created(Initial(), 1, 3).0;
    assert r.storage == [Empty, Live(C1, 0)];
    assert Grow([], 1)[1] + [C1] == [C1];
    assert |r.byEntity| == 2 && r.byEntity[0] == [] && r.byEntity[1] == [C1];
    assert r.byEntity == [[], [C1]];
    assert Bucket(map[], 3) + [C1] == [C1];
  }

  /** The second record grows the entity index again and joins family 3 behind the first. */
  lemma CascadeCreate2()
    ensures Created(Tables([Empty, Live(C1, 0)], [], [[], [C1]], map[3 := [C1]]), 2, 3).0
            == Tables([Empty, Live(C1, 0), Live(C2, 0)], [], [[], [C1], [C2]], map[3 := [C1, C2]])
  {
    var t := Tables([Empty, Live(C1, 0)], [], [[], [C1]], map[3 := [C1]]);
    var r := Created(t, 2, 3).0;
    assert r.storage == [Empty, Live(C1, 0), Live(C2, 0)];
    assert Grow(t.byEntity, 2)[2] + [C2] == [C2];
    assert |r.byEntity| == 3 && r.byEntity[0] == [] && r.byEntity[1] == [C1] && r.byEntity[2] == [C2];
    assert r.byEntity == [[], [C1], [C2]];
    assert Bucket(t.byFamily, 3) + [C2] == [C1, C2];
  }

  /** The third record joins entity 1's existing bucket and opens family 4. */
  lemma CascadeCreate3()
    ensures Created(Tables([Empty, Live(C1, 0), Live(C2, 0)], [], [[], [C1], [C2]], map[3 := [C1, C2]]), 1, 4).0
            == CascadeBefore()
  {
    var t := Tables([Empty, Live(C1, 0), Live(C2, 0)], [], [[], [C1], [C2]], map[3 := [C1, C2]]);
    var r := Created(t, 1, 4).0;
    assert r.storage == [Empty, Live(C1, 0), Live(C2, 0), Live(C3, 0)];
    assert Grow(t.byEntity, 1)[1] + [C3] == [C1, C3];
    assert |r.byEntity| == 3 && r.byEntity[0] == [] && r.byEntity[1] == [C1, C3] && r.byEntity[2] == [C2];
    assert r.byEntity == [[], [C1, C3], [C2]];
    assert Bucket(t.byFamily, 4) + [C3] == [C3];
  }

  /** Emptying the slots of entity 1's records, then compacting: slot 3 is popped and 3 leaves the
      recycled ids, slot 1 stays and 1 stays recycled. */
  lemma CascadeSlots()
    ensures CompactTail(ClearSlots(CascadeBefore().storage, [C1, C3]), [] + Uids([C1, C3]))
            == ([Empty, Empty, Live(C2, 0)], [1])
  {
    assert Uids([C1, C3]) == [1, 3];
    var cleared := ClearSlots(CascadeBefore().storage, [C1, C3]);
    assert cleared == [Empty, Empty, Live(C2, 0), Empty];
    assert cleared[..3] == [Empty, Empty, Live(C2, 0)];
    assert RemoveFirst([1, 3], 3) == [1];
    assert [] + Uids([C1, C3]) == [1, 3];
    assert CompactTail(cleared, [1, 3]) == CompactTail(cleared[..3], [1]);
    assert CompactTail(cleared[..3], [1]) == (cleared[..3], [1]);
  }

  /** Taking entity 1's records out of the family index: (1, 1, 3) leaves family 3's bucket, and
      family 4, left empty, is dropped. */
  lemma CascadeFamilies()
    ensures PurgeFamilies(map[3 := [C1, C2], 4 := [C3]], [C1, C3]) == map[3 := [C2]]
  {
    assert EraseSkipping([C1, C2], 0, 1) == [C2] by {
      assert [C1, C2][..0] + [C1, C2][1..] == [C2];
      EraseSkippingNoMatch([C2], 1, 1);
    }
    assert EraseSkipping([C3], 0, 3) == [] by {
      assert [C3][..0] + [C3][1..] == [];
    }
    var m := map[3 := [C1, C2], 4 := [C3]];
    assert [C1, C3][..1] == [C1] && [C1][..0] == [];
    assert PurgeFamilies(m, [C1]) == PurgeOne(m, C1) == map[3 := [C2], 4 := [C3]];
    assert PurgeOne(map[3 := [C2], 4 := [C3]], C3) == map[3 := [C2]];
  }

  /** A fresh registry with entities 1 and 2 and the records of CascadeBefore. */
  method CascadeRegistry() returns (cs: ComponentSystem)
    ensures fresh(cs) && fresh(cs.entitySystem)
    ensures cs.Valid() && cs.entitySystem.Valid() && cs.InSync()
    ensures cs.State() == CascadeBefore() && cs.EntityExists(1)
  {
    cs := new ComponentSystem();
    var e1 := cs.CreateNewEntityUnderId(1);
    var e2 := cs.CreateNewEntityUnderId(2);
    var a := cs.CreateComponent(1, 3);
    CascadeCreate1();
    var b := cs.CreateComponent(2, 3);
    CascadeCreate2();
    var c := cs.CreateComponent(1, 4);
    CascadeCreate3();
  }

  /** Deleting entity 1 through the registry cascades to its two components: their ids are recycled
      or compacted away, their slots emptied and their family buckets purged. */
  method EntityCascade() returns (ok: bool, storage: seq<Slot>, erased: seq<nat>,
                                  byFamily: map<nat, seq<Component>>)
    ensures ok
    ensures storage == [Empty, Empty, Live(Component(2, 2, 3), 0)]
    ensures erased == [1]
    ensures byFamily == map[3 := [Component(2, 2, 3)]]
  {
    var cs := CascadeRegistry();
    assert 2 !in Uids([C1, C3]);
    CascadeSlots();
    CascadeFamilies();
    ok := cs.DeleteEntity(1);
    storage, erased, byFamily := cs.storage, cs.erased, cs.byFamily;
  }
}
