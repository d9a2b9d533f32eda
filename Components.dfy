/** The registry class `ComponentSystem` (ComponentSystem.h:192-850): flat storage indexed by unique
    id with an empty dummy in slot 0, a FIFO list of recyclable ids, a per-entity index and a
    per-family index, plus the entity allocator it owns. */
module Components {
  import opened Lists
  import opened Records
  import opened Registry
  import opened Entities

  class ComponentSystem {
    /** The entity allocator (ComponentSystem.h:194). */
    const entitySystem: EntitySystem
    /** mComponentArray */
    var storage: seq<Slot>
    /** mErasedIds: recyclable unique ids, oldest first. */
    var erased: seq<nat>
    /** mEntityComponentArray */
    var byEntity: seq<seq<Component>>
    /** mFamilyComponentMap */
    var byFamily: map<nat, seq<Component>>

    function State(): Tables
      reads this
    {
      Tables(storage, erased, byEntity, byFamily)
    }

    /** The dummy slot is in place and id 0 is never handed out again; the owned allocator keeps its
        own invariant, `entitySystem.Valid()`, stated separately by the methods that use it. */
    predicate Valid()
      reads this
    {
      Basic(State())
    }

    /** The four views agree. */
    predicate InSync()
      reads this
    {
      Coherent(State())
    }

    /** Whether entity e currently exists in the owned allocator. */
    predicate EntityExists(e: nat)
      reads entitySystem
    {
      IsLive(entitySystem.entities, entitySystem.erased, e)
    }

    /** ComponentSystem.h:211-216: the dummy slot only, and a fresh allocator. */
    constructor ()
      ensures Valid() && InSync() && State() == Initial() && entitySystem.Valid()
      ensures fresh(entitySystem) && entitySystem.entities == [0] && entitySystem.erased == []
    {
      entitySystem := new EntitySystem();
      storage := [Empty];
      erased := [];
      byEntity := [];
      byFamily := map[];
    }

    /** Files c at the end of its entity's bucket, growing the entity index when needed, and at the
        end of its family's bucket (ComponentSystem.h:265-269, 290-294, 365-369). */
    method Index(c: Component)
      modifies this
      ensures State() == Indexed(old(State()), c)
    {
      if c.entityId >= |byEntity| {
        byEntity := Grow(byEntity, c.entityId);
      }
      byEntity := byEntity[c.entityId := byEntity[c.entityId] + [c]];
      byFamily := byFamily[c.familyId := Bucket(byFamily, c.familyId) + [c]];
    }

    /** ComponentSystem.h:236-239: forwarded to the allocator. */
    method CreateNewEntityUnderId(id: nat) returns (r: nat)
      requires entitySystem.Valid()
      modifies entitySystem
      ensures entitySystem.Valid()
      ensures (entitySystem.entities, entitySystem.erased, r)
              == ClaimId(old(entitySystem.entities), old(entitySystem.erased), id)
    {
      r := entitySystem.CreateNewEntityUnderId(id);
    }

    /** CreateComponent<Type>(e) (ComponentSystem.h:251-279), Type's family being f. */
    method CreateComponent(e: nat, f: nat) returns (r: Option<Component>)
      requires Valid()
      modifies this
      ensures Valid()
      ensures (State(), r) == Created(old(State()), e, f)
      ensures old(InSync()) ==> InSync() && r.Some?
    {
      ghost var t := State();
      if erased == [] {
        var c := Component(|storage|, e, f);
        assert storage + [Live(c, 0)] == Resized(storage, c.uniqueId + 1)[c.uniqueId := Live(c, 0)];
        storage := storage + [Live(c, 0)];
        Index(c);
        r := Some(c);
      } else {
        var u := erased[0];
        erased := erased[1..];
        r := Replace(u, e, f);
      }
      if Coherent(t) {
        CreateKeepsCoherent(t, e, f);
      }
    }

    /** AttachComponent (ComponentSystem.h:286-296); uid 0 is the null id and is not accepted. */
    method AttachComponent(c: Component) returns (ok: bool)
      requires Valid() && c.uniqueId >= 1
      modifies this
      ensures Valid() && ok
      ensures State() == Attached(old(State()), c)
      ensures old(InSync()) ==> (InSync() <==> c.uniqueId == old(|storage|))
    {
      if Coherent(State()) {
        AttachCoherentIff(State(), c);
      }
      storage := storage + [Live(c, 1)];
      Index(c);
      return true;
    }

    /** AttachArray (ComponentSystem.h:304-312). */
    method AttachArray(cs: seq<Component>) returns (ok: bool)
      requires Valid() && forall c :: c in cs ==> c.uniqueId >= 1
      modifies this
      ensures Valid() && ok
      ensures State() == AttachedAll(old(State()), cs)
      ensures old(InSync()) && (forall i :: 0 <= i < |cs| ==> cs[i].uniqueId == old(|storage|) + i)
              ==> InSync()
    {
      ghost var t := State();
      var i := 0;
      while i < |cs|
        invariant 0 <= i <= |cs|
        invariant Valid()
        invariant State() == AttachedAll(t, cs[..i])
      {
        AttachedAllStep(t, cs, i);
        assert cs[i] in cs;
        ok := AttachComponent(cs[i]);
        i := i + 1;
      }
      assert cs[..i] == cs;
      if Coherent(t) && forall k :: 0 <= k < |cs| ==> cs[k].uniqueId == |t.storage| + k {
        assert InSync() by {
          AttachAllKeepsCoherent(t, cs);
        }
      }
      return true;
    }

    /** Replace<Type>(u, e) (ComponentSystem.h:349-375), Type's family being f; slot 0 is the dummy
        and is not accepted. */
    method Replace(u: nat, e: nat, f: nat) returns (r: Option<Component>)
      requires Valid() && u >= 1
      modifies this
      ensures Valid()
      ensures (State(), r) == Replaced(old(State()), u, e, f)
      ensures old(InSync()) && (u >= old(|storage|) || old(storage[u]).Empty?) && u !in old(erased)
              ==> InSync()
    {
      ghost var t := State();
      if Coherent(t) && (u >= |t.storage| || t.storage[u].Empty?) && u !in t.erased {
        assert Coherent(Installed(t, Component(u, e, f))) by {
          InstallKeepsCoherent(t, Component(u, e, f));
        }
      }
      if RefCount(u) == 0 {
        if u >= |storage| {
          storage := Resized(storage, u + 1);
        }
        var c := Component(u, e, f);
        storage := storage[u := Live(c, 0)];
        Index(c);
        r := Some(c);
      } else {
        r := View(storage[0]);
      }
    }

    /** Release(u) (ComponentSystem.h:389-427). */
    method Release(u: nat) returns (ok: bool)
      requires Valid() && ReleasableIn(State(), u)
      modifies this
      ensures Valid()
      ensures (State(), ok) == Released(old(State()), u)
      ensures old(InSync()) ==> InSync()
    {
      ghost var t := State();
      if Coherent(t) {
        ReleaseKeepsCoherent(t, u);
      }
      if RefCount(u) == 0 {
        var c := storage[u].comp;
        var bucket, found := EraseFirstUid(byEntity[c.entityId], u);
        byEntity := byEntity[c.entityId := bucket];
        var familyBucket, foundInFamily := EraseFirstUid(Bucket(byFamily, c.familyId), u);
        byFamily := byFamily[c.familyId := familyBucket];
        storage := storage[u := Empty];
        erased := erased + [u];
        return true;
      }
      return false;
    }

    /** RefCount(u) (ComponentSystem.h:435-445). */
    function RefCount(u: nat): (n: nat)
      reads this
      ensures n > 0 ==> u < |storage| && storage[u].Live?
    {
      RefCountIn(storage, u)
    }

    /** A handle on the component in slot u is copied outside the registry. */
    method Acquire(u: nat)
      requires Valid() && u < |storage| && storage[u].Live?
      modifies this
      ensures Valid()
      ensures RefCount(u) == old(RefCount(u)) + 1
      ensures storage == old(storage)[u := Live(old(storage[u].comp), old(storage[u].holders) + 1)]
      ensures erased == old(erased) && byEntity == old(byEntity) && byFamily == old(byFamily)
      ensures old(InSync()) ==> InSync()
    {
      HoldersKeepCoherent(State(), u, storage[u].holders + 1);
      storage := storage[u := Live(storage[u].comp, storage[u].holders + 1)];
    }

    /** A handle on the component in slot u held outside the registry is destroyed. */
    method Drop(u: nat)
      requires Valid() && RefCount(u) > 0
      modifies this
      ensures Valid()
      ensures RefCount(u) == old(RefCount(u)) - 1
      ensures storage == old(storage)[u := Live(old(storage[u].comp), old(storage[u].holders) - 1)]
      ensures erased == old(erased) && byEntity == old(byEntity) && byFamily == old(byFamily)
      ensures old(InSync()) ==> InSync()
    {
      HoldersKeepCoherent(State(), u, storage[u].holders - 1);
      storage := storage[u := Live(storage[u].comp, storage[u].holders - 1)];
    }

    /** GetComponent(u) (ComponentSystem.h:453-459): slot u, or the dummy slot 0 when u is out of
        range; the null pointer is None. */
    function GetComponent(u: nat): (r: Option<Component>)
      reads this
      requires Basic(State())
      ensures r.Some? <==> u < |storage| && storage[u].Live?
      ensures r.Some? ==> r.value == storage[u].comp
      ensures r.Some? && InSync() ==> r.value.uniqueId == u
    {
      if u < |storage| then View(storage[u]) else View(storage[0])
    }

    /** GetComponentsByEntity(e) (ComponentSystem.h:467-470); the bucket is read unchecked. */
    function GetComponentsByEntity(e: nat): (r: seq<Component>)
      reads this
      requires e < |byEntity|
      ensures InSync() ==> NoDupUids(r)
      ensures InSync() ==> forall c :: c in r <==> IsLiveIn(storage, c) && c.entityId == e
    {
      var r := byEntity[e];
      if InSync() then
        assert forall c :: IsLiveIn(storage, c) ==> storage[c.uniqueId].comp == c;
        r
      else r
    }

    /** AppendComponentsByEntity(e, list) (ComponentSystem.h:472-478): grows the entity index to
        cover e, then appends e's bucket to list. */
    method AppendComponentsByEntity(e: nat, list: seq<Component>) returns (r: seq<Component>)
      requires Valid()
      modifies this
      ensures Valid()
      ensures State() == old(State()).(byEntity := Grow(old(byEntity), e))
      ensures r == list + byEntity[e]
      ensures old(InSync()) ==> InSync()
    {
      if Coherent(State()) {
        GrowIndexKeepsCoherent(State(), e);
      }
      if e >= |byEntity| {
        byEntity := Grow(byEntity, e);
      }
      r := list + byEntity[e];
    }

    /** GetComponentsByFamily(f) (ComponentSystem.h:486-489): `operator[]` inserts an empty bucket
        when f has none. */
    method GetComponentsByFamily(f: nat) returns (r: seq<Component>)
      requires Valid()
      modifies this
      ensures Valid()
      ensures State() == old(State()).(byFamily := old(byFamily)[f := Bucket(old(byFamily), f)])
      ensures r == Bucket(old(byFamily), f)
      ensures old(InSync()) ==> InSync() && NoDupUids(r)
      ensures old(InSync()) ==> forall c :: c in r <==> IsLiveIn(storage, c) && c.familyId == f
    {
      if Coherent(State()) {
        TouchFamilyKeepsCoherent(State(), f);
        assert BucketOk(storage, Bucket(byFamily, f), FamilyKey(f));
        assert forall c :: IsLiveIn(storage, c) ==> storage[c.uniqueId].comp == c;
      }
      r := Bucket(byFamily, f);
      byFamily := byFamily[f := r];
    }

    /** GetComponentsByEntityAndFamily(e, f, list) (ComponentSystem.h:498-503): appends the records of
        entity e whose family is f; the entity bucket is read unchecked. */
    method GetComponentsByEntityAndFamily(e: nat, f: nat, list: seq<Component>) returns (r: seq<Component>)
      requires e < |byEntity|
      ensures r == list + Select(byEntity[e], FamilyKey(f))
      ensures InSync() ==> forall c :: c in r <==>
                c in list || (IsLiveIn(storage, c) && c.entityId == e && c.familyId == f)
    {
      r := AppendMatching(byEntity[e], FamilyKey(f), list);
      if Coherent(State()) {
        FiltersAgree(State(), e, f);
      }
    }

    /** GetComponentsByFamilyAndEntity(e, f, list) (ComponentSystem.h:532-537): appends the records of
        family f whose entity is e; `operator[]` inserts an empty bucket when f has none. */
    method GetComponentsByFamilyAndEntity(e: nat, f: nat, list: seq<Component>) returns (r: seq<Component>)
      requires Valid()
      modifies this
      ensures Valid()
      ensures State() == old(State()).(byFamily := old(byFamily)[f := Bucket(old(byFamily), f)])
      ensures r == list + Select(Bucket(old(byFamily), f), EntityKey(e))
      ensures old(InSync()) ==> InSync()
      ensures old(InSync()) && e < |byEntity| ==>
                multiset(r) == multiset(list) + multiset(Select(byEntity[e], FamilyKey(f)))
    {
      if Coherent(State()) {
        TouchFamilyKeepsCoherent(State(), f);
        if e < |byEntity| {
          FiltersAgree(State(), e, f);
        }
      }
      byFamily := byFamily[f := Bucket(byFamily, f)];
      r := AppendMatching(byFamily[f], EntityKey(e), list);
    }

    /** FindFirstComponentByEntityAndFamily(e, f) (ComponentSystem.h:548-562): the first record of
        entity e in family f, or the dummy slot's null pointer. */
    method FindFirstComponentByEntityAndFamily(e: nat, f: nat) returns (r: Option<Component>)
      requires Basic(State())
      ensures e < |byEntity| && Select(byEntity[e], FamilyKey(f)) != [] ==>
                r == Some(Select(byEntity[e], FamilyKey(f))[0])
      ensures e >= |byEntity| || Select(byEntity[e], FamilyKey(f)) == [] ==> r == None
      ensures InSync() && r.Some? ==>
                IsLiveIn(storage, r.value) && r.value.entityId == e && r.value.familyId == f
    {
      if e < |byEntity| {
        r := FindFirst(byEntity[e], FamilyKey(f));
        if r.Some? {
          if Coherent(State()) {
            FiltersAgree(State(), e, f);
          }
          return r;
        }
      }
      r := View(storage[0]);
    }

    /** FindFirstComponentByFamily(f) (ComponentSystem.h:564-571): the head of family f's bucket, or
        the dummy slot's null pointer; `operator[]` inserts an empty bucket when f has none. */
    method FindFirstComponentByFamily(f: nat) returns (r: Option<Component>)
      requires Valid()
      modifies this
      ensures Valid()
      ensures State() == old(State()).(byFamily := old(byFamily)[f := Bucket(old(byFamily), f)])
      ensures r == if Bucket(old(byFamily), f) == [] then None else Some(Bucket(old(byFamily), f)[0])
      ensures old(InSync()) ==> InSync()
      ensures old(InSync()) && r.Some? ==> IsLiveIn(storage, r.value) && r.value.familyId == f
    {
      if Coherent(State()) {
        TouchFamilyKeepsCoherent(State(), f);
        assert BucketOk(storage, Bucket(byFamily, f), FamilyKey(f));
      }
      byFamily := byFamily[f := Bucket(byFamily, f)];
      if |byFamily[f]| > 0 {
        return Some(byFamily[f][0]);
      }
      r := View(storage[0]);
    }

    /** CountComponentsByEntityAndFamily(e, f) (ComponentSystem.h:653-661): how many records of entity
        e belong to family f; the entity bucket is read unchecked. */
    method CountComponentsByEntityAndFamily(e: nat, f: nat) returns (n: nat)
      requires e < |byEntity|
      ensures n == |Select(byEntity[e], FamilyKey(f))|
      ensures InSync() ==> n == |Select(Bucket(byFamily, f), EntityKey(e))|
    {
      n := CountMatching(byEntity[e], FamilyKey(f));
      if Coherent(State()) {
        FiltersAgree(State(), e, f);
        assert |multiset(Select(byEntity[e], FamilyKey(f)))|
               == |multiset(Select(Bucket(byFamily, f), EntityKey(e)))|;
      }
    }

    /** DeleteComponent(u) (ComponentSystem.h:663-704). */
    method DeleteComponent(u: nat) returns (ok: bool)
      requires Valid() && DeletableIn(State(), u)
      modifies this
      ensures Valid()
      ensures (State(), ok) == ComponentDeleted(old(State()), u)
      ensures old(InSync()) ==> InSync() && ok
    {
      if Coherent(State()) {
        DeleteComponentKeepsCoherent(State(), u);
      }
      if u < |storage| {
        var c := storage[u].comp;
        var familyBucket, found := EraseFirstUid(Bucket(byFamily, c.familyId), c.uniqueId);
        byFamily := byFamily[c.familyId := familyBucket];
        if !found {
          return false;
        }
        var entityBucket;
        entityBucket, found := EraseFirstUid(byEntity[c.entityId], c.uniqueId);
        if !found {
          return false;
        }
        byEntity := byEntity[c.entityId := entityBucket];
        storage := storage[u := Empty];
        if u == |storage| - 1 {
          storage := storage[..u];
        } else {
          erased := erased + [u];
        }
      }
      return true;
    }

    /** DeleteEntity(e) (ComponentSystem.h:713-763): deletes the id from the allocator and, when it
        existed, drops every record of the entity and compacts trailing empty slots. */
    method DeleteEntity(e: nat) returns (ok: bool)
      requires Valid() && entitySystem.Valid()
      requires EntityExists(e) ==> EntityDeletableIn(State(), e)
      modifies this, entitySystem
      ensures Valid() && entitySystem.Valid()
      ensures ok == old(EntityExists(e))
      ensures !ok ==> State() == old(State())
      ensures !ok ==> entitySystem.entities == old(entitySystem.entities)
                      && entitySystem.erased == old(entitySystem.erased)
      ensures ok ==> State() == EntityDeleted(old(State()), e)
      ensures ok ==> (entitySystem.entities, entitySystem.erased)
                     == AfterDelete(old(entitySystem.entities), old(entitySystem.erased), e)
      ensures !EntityExists(e)
      ensures old(InSync()) ==> InSync()
    {
      ok := entitySystem.Delete(e);
      if !ok {
        return;
      }
      ghost var t := State();
      ghost var live :| 0 <= live < |storage| && storage[live].Live? && live !in Uids(byEntity[e]);
      var cs := GetComponentsByEntity(e);
      PurgeFamiliesOf(cs);
      byEntity := byEntity[e := []];
      ResetSlots(cs);
      CompactStorage(live);
      assert State() == EntityDeleted(t, e);
      EntityDeletedKeepsBasic(t, e);
      if Coherent(t) {
        EntityDeletedKeepsCoherent(t, e);
      }
    }

    /** The family loop of DeleteEntity (ComponentSystem.h:721-736): each record's id joins the
        recycled ids and leaves its family bucket, and a bucket left empty loses its key. */
    method PurgeFamiliesOf(cs: seq<Component>)
      modifies this
      ensures storage == old(storage) && byEntity == old(byEntity)
      ensures erased == old(erased) + Uids(cs)
      ensures byFamily == PurgeFamilies(old(byFamily), cs)
    {
      var i := 0;
      while i < |cs|
        invariant 0 <= i <= |cs|
        invariant storage == old(storage) && byEntity == old(byEntity)
        invariant erased == old(erased) + Uids(cs[..i])
        invariant byFamily == PurgeFamilies(old(byFamily), cs[..i])
      {
        assert cs[..i + 1][..i] == cs[..i];
        assert Uids(cs[..i + 1]) == Uids(cs[..i]) + [cs[i].uniqueId];
        erased := erased + [cs[i].uniqueId];
        PurgeOneFamily(cs[i]);
        i := i + 1;
      }
      assert cs[..i] == cs;
    }

    /** One pass of that loop's body (ComponentSystem.h:725-735): the skipping erase loop on the
        record's family bucket, and the key dropped when the bucket ends up empty. */
    method PurgeOneFamily(c: Component)
      modifies this
      ensures byFamily == PurgeOne(old(byFamily), c)
      ensures storage == old(storage) && erased == old(erased) && byEntity == old(byEntity)
    {
      var f := c.familyId;
      var b := EraseSkippingLoop(Bucket(byFamily, f), c.uniqueId);
      byFamily := byFamily[f := b];
      if b == [] {
        byFamily := byFamily - {f};
        assert byFamily == old(byFamily) - {f};
      }
    }

    /** The reset loop of DeleteEntity (ComponentSystem.h:740-742). */
    method ResetSlots(cs: seq<Component>)
      requires forall c :: c in cs ==> c.uniqueId < |storage|
      modifies this
      ensures storage == ClearSlots(old(storage), cs)
      ensures erased == old(erased) && byEntity == old(byEntity) && byFamily == old(byFamily)
    {
      var i := 0;
      while i < |cs|
        invariant 0 <= i <= |cs|
        invariant forall c :: c in cs[..i] ==> c in cs
        invariant storage == ClearSlots(old(storage), cs[..i])
        invariant erased == old(erased) && byEntity == old(byEntity) && byFamily == old(byFamily)
      {
        assert cs[..i + 1][..i] == cs[..i];
        assert cs[i] in cs;
        storage := storage[cs[i].uniqueId := Empty];
        i := i + 1;
      }
      assert cs[..i] == cs;
    }

    /** The compaction loop of DeleteEntity (ComponentSystem.h:745-757); the live slot `live` is what
        stops it before storage runs empty. */
    method CompactStorage(ghost live: nat)
      requires live < |storage| && storage[live].Live?
      modifies this
      ensures (storage, erased) == CompactTail(old(storage), old(erased))
      ensures byEntity == old(byEntity) && byFamily == old(byFamily)
    {
      while storage == [] || storage[|storage| - 1].Empty?
        invariant live < |storage| && storage[live].Live?
        invariant CompactTail(storage, erased) == CompactTail(old(storage), old(erased))
        invariant byEntity == old(byEntity) && byFamily == old(byFamily)
        decreases |storage|
      {
        var lastId := |storage| - 1;
        storage := storage[..lastId];
        var rest, found := EraseFirst(erased, lastId);
        erased := rest;
      }
    }

    /** Clear() (ComponentSystem.h:577-588): back to the state the constructor makes, the allocator
        included. */
    method Clear()
      modifies this, entitySystem
      ensures Valid() && InSync() && State() == Initial() && entitySystem.Valid()
      ensures entitySystem.entities == [0] && entitySystem.erased == []
    {
      storage := [];
      erased := [];
      byEntity := [];
      byFamily := map[];
      storage := storage + [Empty];
      entitySystem.Clear();
    }

    /** Resize(n) (ComponentSystem.h:590-592): storage is truncated or padded with empty slots; the
        dummy slot must survive. */
    method Resize(n: nat)
      requires Valid() && n >= 1
      modifies this
      ensures Valid()
      ensures State() == old(State()).(storage := Resized(old(storage), n))
      ensures old(InSync()) && n >= old(|storage|) ==> InSync()
    {
      if Coherent(State()) && n >= |storage| {
        GrowKeepsCoherent(State(), n);
      }
      storage := Resized(storage, n);
    }

    /** RebuildErasedIDs() (ComponentSystem.h:618-625): the recycled ids become the empty slots
        1 .. Size() - 1 in ascending order. */
    method RebuildErasedIDs()
      requires Valid()
      modifies this
      ensures Valid()
      ensures State() == old(State()).(erased := EmptyIds(old(storage), old(|storage|)))
    {
      ghost var t := State();
      var ids: seq<nat> := [];
      var i := 1;
      while i < Size()
        invariant 1 <= i <= |storage|
        invariant ids == EmptyIds(storage, i)
      {
        assert EmptyIds(storage, i + 1) == EmptyIds(storage, i) + if storage[i].Empty? then [i] else [];
        if storage[i].Empty? {
          ids := ids + [i];
        }
        i := i + 1;
      }
      assert 0 !in ids;
      erased := ids;
    }

    /** Size() (ComponentSystem.h:632-634). */
    function Size(): nat
      reads this
    {
      |storage|
    }

    /** EntitySize() (ComponentSystem.h:636-638). */
    function EntitySize(): nat
      reads entitySystem
    {
      entitySystem.Size()
    }

    /** ErasedIDSize() (ComponentSystem.h:640-642). */
    function ErasedIDSize(): (n: nat)
      reads this
      ensures InSync() ==> n < Size()
    {
      if InSync() then ErasedBound(State()); |erased| else |erased|
    }
  }
}
