/** The entity id allocator, `EntitySystem` (ComponentSystem.h:52-185).
    It keeps the vector `mEntities`, whose slot i always holds i, and the FIFO
    list `mErasedIds` of ids that were deleted below the top and may be reissued. */
module Entities {
  import opened Lists

  /** mEntities[i] == i for every slot: the vector is the identity on its indexes. */
  predicate Sequential(entities: seq<nat>) {
    forall i :: 0 <= i < |entities| ==> entities[i] == i
  }

  /** An id exists when it is below the vector's size and is not waiting in the erased list
      (ComponentSystem.h:165-179). */
  predicate IsLive(entities: seq<nat>, erased: seq<nat>, id: nat) {
    id < |entities| && id !in erased
  }

  /** The allocator's invariant: the identity vector, an erased list of distinct ids below the size,
      and a top id that is never an erased one (Delete compacts those away). */
  predicate WellFormed(entities: seq<nat>, erased: seq<nat>) {
    && Sequential(entities)
    && NoDup(erased)
    && (forall k :: k in erased ==> k < |entities|)
    && (entities != [] ==> entities[|entities| - 1] !in erased)
  }

  /** The compaction loop of Delete (ComponentSystem.h:142-158): while the top id is in the erased
      list, pop it off the vector and erase it from the list. */
  function TrimErased(entities: seq<nat>, erased: seq<nat>): (r: (seq<nat>, seq<nat>))
    ensures |r.0| <= |entities| && |r.1| <= |erased|
    ensures |erased| - |r.1| == |entities| - |r.0|
    decreases |entities|
  {
    if entities != [] && entities[|entities| - 1] in erased then
      TrimErased(entities[..|entities| - 1], RemoveFirst(erased, entities[|entities| - 1]))
    else
      (entities, erased)
  }

  /** Compaction only cuts off the vector a tail of ids that were in the erased list. */
  lemma {:induction false} TrimErasedPrefix(entities: seq<nat>, erased: seq<nat>)
    requires Sequential(entities)
    ensures |TrimErased(entities, erased).0| <= |entities|
    ensures TrimErased(entities, erased).0 == entities[..|TrimErased(entities, erased).0|]
    ensures forall j :: |TrimErased(entities, erased).0| <= j < |entities| ==> j in erased
    decreases |entities|
  {
    if entities != [] && entities[|entities| - 1] in erased {
      var n := |entities|;
      var e', r' := entities[..n - 1], RemoveFirst(erased, n - 1);
      var result := TrimErased(e', r');
      assert result == TrimErased(entities, erased);
      assert Sequential(e');
      TrimErasedPrefix(e', r');
      assert result.0 == entities[..|result.0|] by {
        assert result.0 == e'[..|result.0|];
      }
    } else {
      assert entities[..|entities|] == entities;
    }
  }

  /** Compaction drops from the erased list exactly the ids it cuts off the vector, keeps the list
      without repetitions, and stops at a top id that is not erased. */
  lemma {:induction false} TrimErasedList(entities: seq<nat>, erased: seq<nat>)
    requires Sequential(entities) && NoDup(erased)
    requires forall k :: k in erased ==> k < |entities|
    ensures NoDup(TrimErased(entities, erased).1)
    ensures forall k :: k in TrimErased(entities, erased).1 <==>
                        k in erased && k < |TrimErased(entities, erased).0|
    ensures TrimErased(entities, erased).0 != [] ==>
              TrimErased(entities, erased).0[|TrimErased(entities, erased).0| - 1]
              !in TrimErased(entities, erased).1
    decreases |entities|
  {
    if entities != [] && entities[|entities| - 1] in erased {
      var n := |entities|;
      var e', r' := entities[..n - 1], RemoveFirst(erased, n - 1);
      assert TrimErased(e', r') == TrimErased(entities, erased);
      RemoveFirstMembers(erased, n - 1);
      assert Sequential(e') && forall k :: k in r' ==> k < |e'|;
      TrimErasedList(e', r');
      TrimErasedPrefix(e', r');
    }
  }

  /** Compaction leaves a well-formed allocator and changes the liveness of no id at all. */
  lemma TrimErasedSpec(entities: seq<nat>, erased: seq<nat>)
    requires Sequential(entities) && NoDup(erased)
    requires forall k :: k in erased ==> k < |entities|
    ensures WellFormed(TrimErased(entities, erased).0, TrimErased(entities, erased).1)
    ensures forall j :: IsLive(TrimErased(entities, erased).0, TrimErased(entities, erased).1, j)
                        == IsLive(entities, erased, j)
  {
    var r := TrimErased(entities, erased);
    TrimErasedPrefix(entities, erased);
    TrimErasedList(entities, erased);
    forall i | 0 <= i < |r.0| ensures r.0[i] == i {
      assert r.0[i] == entities[i];
    }
  }

  /** The allocator state after a successful Delete(id) (ComponentSystem.h:136-158): an id below the
      top joins the erased list, the top id is popped; then the trailing erased ids are compacted. */
  function AfterDelete(entities: seq<nat>, erased: seq<nat>, id: nat): (r: (seq<nat>, seq<nat>))
    requires entities != []
    ensures |r.0| <= |entities|
    ensures |r.1| <= |erased| + 1
  {
    if id != entities[|entities| - 1] then TrimErased(entities, erased + [id])
    else TrimErased(entities[..|entities| - 1], erased)
  }

  /** Deleting a live id keeps the allocator well formed, makes that id dead, and leaves every other
      id as live or as dead as it was; deleting below the top only appends the id to the erased list. */
  lemma DeleteSpec(entities: seq<nat>, erased: seq<nat>, id: nat)
    requires WellFormed(entities, erased) && IsLive(entities, erased, id)
    ensures WellFormed(AfterDelete(entities, erased, id).0, AfterDelete(entities, erased, id).1)
    ensures !IsLive(AfterDelete(entities, erased, id).0, AfterDelete(entities, erased, id).1, id)
    ensures forall j :: j != id ==>
              IsLive(AfterDelete(entities, erased, id).0, AfterDelete(entities, erased, id).1, j)
              == IsLive(entities, erased, j)
    ensures id != entities[|entities| - 1] ==>
              AfterDelete(entities, erased, id) == (entities, erased + [id])
  {
    var n := |entities|;
    if id != entities[n - 1] {
      var r := erased + [id];
      assert NoDup(r) by {
        forall i, j | 0 <= i < j < |r| ensures r[i] != r[j] {
          if j == |r| - 1 { assert r[i] in erased; }
        }
      }
      assert entities[n - 1] !in r;
      TrimErasedSpec(entities, r);
    } else {
      var e' := entities[..n - 1];
      assert id == n - 1;
      TrimErasedSpec(e', erased);
    }
  }

  /** Claiming an erased id (ComponentSystem.h:93-101): it leaves the erased list, becomes live, and
      no other id changes liveness. */
  lemma ClaimErasedSpec(entities: seq<nat>, erased: seq<nat>, id: nat)
    requires WellFormed(entities, erased) && id in erased
    ensures entities[id := id] == entities
    ensures WellFormed(entities, RemoveFirst(erased, id))
    ensures IsLive(entities, RemoveFirst(erased, id), id)
    ensures forall j :: j != id ==> IsLive(entities, RemoveFirst(erased, id), j) == IsLive(entities, erased, j)
  {
    RemoveFirstMembers(erased, id);
  }

  /** Claiming an id at or beyond the size (ComponentSystem.h:106-122): the vector grows to id + 1,
      the gap ids between the old size and id join the erased list in ascending order, id becomes
      live and no other id changes liveness (the gap ids were dead before and are erased after). */
  lemma FillGapSpec(entities: seq<nat>, erased: seq<nat>, id: nat)
    requires WellFormed(entities, erased) && id >= |entities|
    ensures WellFormed(entities + Range(|entities|, id + 1), erased + Range(|entities|, id))
    ensures IsLive(entities + Range(|entities|, id + 1), erased + Range(|entities|, id), id)
    ensures forall j :: j != id ==>
              IsLive(entities + Range(|entities|, id + 1), erased + Range(|entities|, id), j)
              == IsLive(entities, erased, j)
  {
    var size := |entities|;
    var rg := Range(size, id);
    var ents, er := entities + Range(size, id + 1), erased + rg;
    assert forall k :: k in rg <==> size <= k < id by {
      forall k | size <= k < id ensures k in rg {
        assert rg[k - size] == k;
      }
    }
    assert Sequential(ents) by {
      forall k | 0 <= k < |ents| ensures ents[k] == k {
        if k >= size { assert ents[k] == Range(size, id + 1)[k - size]; }
      }
    }
    assert NoDup(er) by {
      forall a, b | 0 <= a < b < |er| ensures er[a] != er[b] {
        if b >= |erased| {
          assert er[b] == rg[b - |erased|];
          if a < |erased| { assert er[a] in erased; }
        }
      }
    }
  }


  /** The outcome of CreateNewEntityUnderId(id) (ComponentSystem.h:83-126), as the new vector, the
      new erased list and the id returned. */
  function ClaimId(entities: seq<nat>, erased: seq<nat>, id: nat): (r: (seq<nat>, seq<nat>, nat))
    ensures r.2 == 0 || r.2 == id
    ensures r.2 == 0 ==> r.0 == entities && r.1 == erased
    ensures |r.0| >= |entities|
  {
    if id == 0 || IsLive(entities, erased, id) then (entities, erased, 0)
    else if id in erased then (entities, RemoveFirst(erased, id), id)
    else if id < |entities| then (entities, erased, 0)
    else (entities + Range(|entities|, id + 1), erased + Range(|entities|, id), id)
  }

  /** Past the size, the claimed id is pushed after the gap ids. */
  lemma ClaimIdPastSize(entities: seq<nat>, erased: seq<nat>, id: nat)
    requires 0 < id && |entities| < id && id !in erased
    ensures ClaimId(entities, erased, id)
            == (entities + Range(|entities|, id) + [id], erased + Range(|entities|, id), id)
  {
    assert Range(|entities|, id + 1) == Range(|entities|, id) + [id];
    assert entities + Range(|entities|, id + 1) == entities + Range(|entities|, id) + [id];
  }


  /** CreateNewEntityUnderId fails exactly for id 0 and for a live id, changing nothing; otherwise it
      returns id, now live, and leaves every other id as live or as dead as it was. */
  lemma ClaimIdSpec(entities: seq<nat>, erased: seq<nat>, id: nat)
    requires WellFormed(entities, erased)
    ensures WellFormed(ClaimId(entities, erased, id).0, ClaimId(entities, erased, id).1)
    ensures ClaimId(entities, erased, id).2 == 0 <==> id == 0 || IsLive(entities, erased, id)
    ensures ClaimId(entities, erased, id).2 == 0 ==> ClaimId(entities, erased, id) == (entities, erased, 0)
    ensures ClaimId(entities, erased, id).2 != 0 ==>
              ClaimId(entities, erased, id).2 == id
              && IsLive(ClaimId(entities, erased, id).0, ClaimId(entities, erased, id).1, id)
    ensures forall j :: j != id ==>
              IsLive(ClaimId(entities, erased, id).0, ClaimId(entities, erased, id).1, j)
              == IsLive(entities, erased, j)
  {
    if id == 0 || IsLive(entities, erased, id) {
    } else if id in erased {
      ClaimErasedSpec(entities, erased, id);
    } else {
      FillGapSpec(entities, erased, id);
    }
  }

  class EntitySystem {
    /** mEntities: slot i holds id i; slot 0 is pushed by the constructor as the "invalid" id. */
    var entities: seq<nat>
    /** mErasedIds: deleted ids waiting to be reissued, oldest first. */
    var erased: seq<nat>

    predicate Valid()
      reads this
    {
      WellFormed(entities, erased)
    }

    /** ComponentSystem.h:56-60: only id 0 is reserved. */
    constructor ()
      ensures Valid() && entities == [0] && erased == []
    {
      entities := [0];
      erased := [];
    }

    /** The vector's size (ComponentSystem.h:127-130). */
    function Size(): nat
      reads this
    {
      |entities|
    }

    /** Reissues the oldest erased id, or grows the vector by one (ComponentSystem.h:66-80). */
    method CreateNewEntity() returns (id: nat)
      requires Valid()
      modifies this
      ensures Valid()
      ensures old(erased) == [] ==>
                id == old(|entities|) && entities == old(entities) + [id] && erased == []
      ensures old(erased) != [] ==>
                id == old(erased[0]) && entities == old(entities) && erased == old(erased[1..])
      ensures IsLive(entities, erased, id)
      ensures forall j :: j != id ==> IsLive(entities, erased, j) == old(IsLive(entities, erased, j))
    {
      if erased == [] {
        entities := entities + [|entities|];
        return |entities| - 1;
      } else {
        var erasedId := erased[0];
        assert erasedId in erased;
        assert erasedId !in erased[1..] by {
          forall k | 0 <= k < |erased[1..]| ensures erased[1..][k] != erasedId {
            assert erased[1..][k] == erased[k + 1];
          }
        }
        assert forall k :: k in erased[1..] ==> k in erased;
        erased := erased[1..];
        entities := entities[erasedId := erasedId];
        return erasedId;
      }
    }

    /** Claims a chosen id (ComponentSystem.h:83-126): fails with 0 for id 0 or a live id; takes it out
        of the erased list when it is there; otherwise materialises the gap ids below it as erased. */
    method CreateNewEntityUnderId(id: nat) returns (r: nat)
      requires Valid()
      modifies this
      ensures Valid()
      ensures (entities, erased, r) == ClaimId(old(entities), old(erased), id)
    {
      ghost var target := ClaimId(entities, erased, id);
      if id > 0 {
        var present := Exist(id);
        if present {
          assert target == (entities, erased, 0);
          return 0;
        }
        if erased != [] {
          var rest, found := EraseFirst(erased, id);
          if found {
            assert entities[id := id] == entities by {
              assert entities[id] == id;
            }
            assert target == (entities, rest, id);
            assert WellFormed(entities, rest) by {
              ClaimErasedSpec(entities, erased, id);
            }
            erased := rest;
            entities := entities[id := id];
            return id;
          }
        }
        assert id !in erased;
        if id == |entities| {
          assert target == (entities + [id], erased, id) by {
            assert Range(id, id + 1) == [id];
            assert erased + Range(id, id) == erased;
          }
          assert WellFormed(target.0, target.1) by {
            FillGapSpec(entities, erased, id);
          }
          entities := entities + [|entities|];
          return |entities| - 1;
        }
        if id < |entities| {
          // ComponentSystem.h:113-114 returns 0 here; no id reaches it, since an id below the size
          // is either live (rejected above) or erased (claimed above).
          assert false;
        }
        ClaimPastSize(id);
        return id;
      }
      assert target == (entities, erased, 0);
      return 0;
    }

    /** Claiming an id past the size (ComponentSystem.h:116-122): the gap ids are pushed onto both
        lists, then the id itself onto the vector. */
    method ClaimPastSize(id: nat)
      requires Valid() && |entities| < id && id !in erased
      modifies this
      ensures Valid()
      ensures (entities, erased, id) == ClaimId(old(entities), old(erased), id)
    {
      assert WellFormed(entities + Range(|entities|, id + 1), erased + Range(|entities|, id)) by {
        FillGapSpec(entities, erased, id);
      }
      ClaimIdPastSize(entities, erased, id);
      FillGap(id);
      entities := entities + [id];
    }

    /** The loop of ComponentSystem.h:116-121: every id from the size up to, not including, id is
        pushed onto the vector and onto the erased list. */
    method FillGap(id: nat)
      requires |entities| <= id
      modifies this
      ensures entities == old(entities) + Range(old(|entities|), id)
      ensures erased == old(erased) + Range(old(|entities|), id)
    {
      var size := |entities|;
      var i := size;
      while i < id
        invariant size <= i <= id
        invariant entities == old(entities) + Range(size, i)
        invariant erased == old(erased) + Range(size, i)
      {
        assert Range(size, i + 1) == Range(size, i) + [i];
        entities := entities + [i];
        erased := erased + [i];
        i := i + 1;
      }
    }

    /** Deletes a live id (ComponentSystem.h:132-163); false, with nothing changed, for any other id. */
    method Delete(id: nat) returns (ok: bool)
      requires Valid()
      modifies this
      ensures Valid()
      ensures ok == old(IsLive(entities, erased, id))
      ensures !ok ==> entities == old(entities) && erased == old(erased)
      ensures ok ==> (entities, erased) == AfterDelete(old(entities), old(erased), id)
      ensures !IsLive(entities, erased, id)
      ensures forall j :: j != id ==> IsLive(entities, erased, j) == old(IsLive(entities, erased, j))
    {
      var present := Exist(id);
      if !present {
        return false;
      }
      DeleteSpec(entities, erased, id);
      ghost var target := AfterDelete(entities, erased, id);
      if id != entities[|entities| - 1] {
        erased := erased + [id];
      } else {
        entities := entities[..|entities| - 1];
      }
      assert TrimErased(entities, erased) == target;
      while entities != []
        invariant TrimErased(entities, erased) == target
        decreases |entities|
      {
        var lastId := entities[|entities| - 1];
        var rest, found := EraseFirst(erased, lastId);
        if !found {
          return true;
        }
        assert TrimErased(entities, erased) == TrimErased(entities[..|entities| - 1], rest);
        entities := entities[..|entities| - 1];
        erased := rest;
      }
      return true;
    }

    /** Whether id exists: below the size and not in the erased list (ComponentSystem.h:165-179). */
    method Exist(id: nat) returns (b: bool)
      ensures b <==> id < |entities| && id !in erased
    {
      if id < |entities| {
        var i := 0;
        while i < |erased|
          invariant 0 <= i <= |erased|
          invariant id !in erased[..i]
        {
          if erased[i] == id {
            return false;
          }
          assert erased[..i + 1] == erased[..i] + [erased[i]];
          i := i + 1;
        }
        assert erased[..i] == erased;
        return true;
      }
      return false;
    }

    /** Back to the state the constructor makes (ComponentSystem.h:180-184). */
    method Clear()
      modifies this
      ensures Valid() && entities == [0] && erased == []
    {
      erased := [];
      entities := [0];
    }
  }
}
