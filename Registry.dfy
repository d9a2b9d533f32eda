/** The four views `ComponentSystem` keeps in sync (ComponentSystem.h:196-204), as one value, and
    what each of its operations does to them. The class in Components.dfy changes its fields
    step by step; every method there is proved to end in the state a function here computes, and
    the lemmas here say what those states are. */
module Registry {
  import opened Lists
  import opened Records

  /** mComponentArray, mErasedIds, mEntityComponentArray and mFamilyComponentMap. */
  datatype Tables = Tables(
    storage: seq<Slot>,
    erased: seq<nat>,
    byEntity: seq<seq<Component>>,
    byFamily: map<nat, seq<Component>>)

  /** The state the constructor and Clear make: one empty dummy slot and nothing else
      (ComponentSystem.h:211-216, 577-588). */
  function Initial(): Tables {
    Tables([Empty], [], [], map[])
  }

  /** The family bucket f, empty when the map has no such key. */
  function Bucket(bf: map<nat, seq<Component>>, f: nat): seq<Component> {
    if f in bf then bf[f] else []
  }

  /** `mEntityComponentArray.resize(e + 1)` when e is past the end, else the vector unchanged. */
  function Grow(be: seq<seq<Component>>, e: nat): (r: seq<seq<Component>>)
    ensures |r| == if e < |be| then |be| else e + 1
    ensures forall i :: 0 <= i < |r| ==> r[i] == if i < |be| then be[i] else []
  {
    if e < |be| then be else be + seq(e + 1 - |be|, _ => [])
  }

  /** `mComponentArray.resize(n)`: truncate, or pad with empty slots. */
  function Resized(st: seq<Slot>, n: nat): (r: seq<Slot>)
    ensures |r| == n
    ensures forall i :: 0 <= i < n ==> r[i] == if i < |st| then st[i] else Empty
  {
    if n <= |st| then st[..n] else st + seq(n - |st|, _ => Empty)
  }

  /** Appends c to its entity bucket, growing the entity index if needed, and to its family bucket
      (ComponentSystem.h:265-269, 290-294, 365-369). */
  function Indexed(t: Tables, c: Component): (r: Tables)
    ensures r.storage == t.storage && r.erased == t.erased
    ensures |r.byEntity| == |Grow(t.byEntity, c.entityId)| && c.entityId < |r.byEntity|
    ensures r.byEntity[c.entityId] == Grow(t.byEntity, c.entityId)[c.entityId] + [c]
    ensures forall e :: 0 <= e < |r.byEntity| && e != c.entityId ==> r.byEntity[e] == Grow(t.byEntity, c.entityId)[e]
    ensures r.byFamily == t.byFamily[c.familyId := Bucket(t.byFamily, c.familyId) + [c]]
  {
    var be := Grow(t.byEntity, c.entityId);
    t.(byEntity := be[c.entityId := be[c.entityId] + [c]],
       byFamily := t.byFamily[c.familyId := Bucket(t.byFamily, c.familyId) + [c]])
  }

  /** RefCount (ComponentSystem.h:435-445): the outside holders of a live slot, 0 for an empty or
      out-of-range one. */
  function RefCountIn(st: seq<Slot>, u: nat): (n: nat)
    ensures n > 0 ==> u < |st| && st[u].Live?
  {
    if u < |st| && st[u].Live? then st[u].holders else 0
  }

  /** The weak invariant every operation keeps: the dummy slot exists and is empty, and id 0 is
      never recycled nor filed under an entity, so that no operation refills the dummy. */
  predicate Basic(t: Tables) {
    && |t.storage| >= 1
    && t.storage[0].Empty?
    && 0 !in t.erased
    && (forall e :: 0 <= e < |t.byEntity| ==> forall c :: c in t.byEntity[e] ==> c.uniqueId >= 1)
  }

  /** c sits in its own slot. */
  predicate IsLiveIn(st: seq<Slot>, c: Component) {
    c.uniqueId < |st| && st[c.uniqueId].Live? && st[c.uniqueId].comp == c
  }

  /** Storage: the empty dummy first, and every live component in the slot of its unique id. */
  predicate SlotsOk(st: seq<Slot>) {
    && |st| >= 1
    && st[0].Empty?
    && (forall i :: 0 <= i < |st| && st[i].Live? ==> st[i].comp.uniqueId == i)
  }

  /** A bucket filed under key k: no repeated id, and only live components that match k. */
  predicate BucketOk(st: seq<Slot>, b: seq<Component>, k: Key) {
    && NoDupUids(b)
    && (forall c :: c in b ==> Matches(c, k) && IsLiveIn(st, c))
  }

  /** The entity index holds exactly the live components, each under its entity. */
  predicate EntityIndexOk(st: seq<Slot>, be: seq<seq<Component>>) {
    && (forall e :: 0 <= e < |be| ==> BucketOk(st, be[e], EntityKey(e)))
    && (forall i :: 0 <= i < |st| && st[i].Live? ==>
          st[i].comp.entityId < |be| && st[i].comp in be[st[i].comp.entityId])
  }

  /** The family index holds exactly the live components, each under its family. */
  predicate FamilyIndexOk(st: seq<Slot>, bf: map<nat, seq<Component>>) {
    && (forall f :: f in bf ==> BucketOk(st, bf[f], FamilyKey(f)))
    && (forall i :: 0 <= i < |st| && st[i].Live? ==> st[i].comp in Bucket(bf, st[i].comp.familyId))
  }

  /** The recycled ids are distinct, never the dummy, and name empty slots only. */
  predicate ErasedOk(st: seq<Slot>, er: seq<nat>) {
    && NoDup(er)
    && (forall k :: k in er ==> 1 <= k < |st| && st[k].Empty?)
  }

  /** The four views agree: the invariant the registry's design promises. */
  predicate Coherent(t: Tables) {
    && SlotsOk(t.storage)
    && EntityIndexOk(t.storage, t.byEntity)
    && FamilyIndexOk(t.storage, t.byFamily)
    && ErasedOk(t.storage, t.erased)
  }

  /** A bucket stays well filed when every component live before is live after. */
  lemma KeepBucket(st: seq<Slot>, st': seq<Slot>, b: seq<Component>, k: Key)
    requires BucketOk(st, b, k)
    requires forall x :: IsLiveIn(st, x) ==> IsLiveIn(st', x)
    ensures BucketOk(st', b, k)
  {
  }

  /** Appending a newly live component to a bucket keeps it well filed. */
  lemma AppendFresh(st: seq<Slot>, st': seq<Slot>, b: seq<Component>, c: Component, k: Key)
    requires BucketOk(st, b, k) && Matches(c, k) && IsLiveIn(st', c)
    requires forall x :: IsLiveIn(st, x) ==> IsLiveIn(st', x) && x.uniqueId != c.uniqueId
    ensures BucketOk(st', b + [c], k)
  {
    var b' := b + [c];
    forall i, j | 0 <= i < j < |b'| ensures b'[i].uniqueId != b'[j].uniqueId {
      assert b'[i] in b ==> IsLiveIn(st, b'[i]);
      if j == |b| { assert b'[i] in b; }
    }
  }

  /** A record c with no outside holders put into slot c.uniqueId, storage padded with empty slots up
      to it (ComponentSystem.h:353-363), and filed in both indexes. */
  function Installed(t: Tables, c: Component): (r: Tables)
    ensures IsLiveIn(r.storage, c) && r.storage[c.uniqueId].holders == 0
    ensures |r.storage| == if c.uniqueId < |t.storage| then |t.storage| else c.uniqueId + 1
    ensures r.erased == t.erased
    ensures c.entityId < |r.byEntity| && c in r.byEntity[c.entityId] && c in Bucket(r.byFamily, c.familyId)
  {
    var st := if c.uniqueId < |t.storage| then t.storage else Resized(t.storage, c.uniqueId + 1);
    Indexed(t.(storage := st[c.uniqueId := Live(c, 0)]), c)
  }

  /** Installing into an empty slot keeps every other slot, makes c live, and keeps every component
      that was live before. */
  lemma InstalledSlots(t: Tables, c: Component)
    requires SlotsOk(t.storage) && c.uniqueId >= 1
    requires c.uniqueId >= |t.storage| || t.storage[c.uniqueId].Empty?
    ensures SlotsOk(Installed(t, c).storage)
    ensures |Installed(t, c).storage| >= |t.storage|
    ensures IsLiveIn(Installed(t, c).storage, c)
    ensures forall x :: IsLiveIn(t.storage, x) ==>
              IsLiveIn(Installed(t, c).storage, x) && x.uniqueId != c.uniqueId
    ensures forall i :: 0 <= i < |Installed(t, c).storage| && i != c.uniqueId ==>
              Installed(t, c).storage[i] == if i < |t.storage| then t.storage[i] else Empty
  {
  }

  /** Filing a newly live component c under its entity keeps the entity index in agreement with a
      storage that differs from the old one only in c's slot. */
  lemma FileEntity(st: seq<Slot>, st': seq<Slot>, be: seq<seq<Component>>, c: Component)
    requires EntityIndexOk(st, be) && IsLiveIn(st', c)
    requires forall x :: IsLiveIn(st, x) ==> IsLiveIn(st', x) && x.uniqueId != c.uniqueId
    requires forall i :: 0 <= i < |st'| && st'[i].Live? && i != c.uniqueId ==> i < |st| && st'[i] == st[i]
    ensures EntityIndexOk(st', Grow(be, c.entityId)[c.entityId := Grow(be, c.entityId)[c.entityId] + [c]])
  {
    var g := Grow(be, c.entityId);
    var be' := g[c.entityId := g[c.entityId] + [c]];
    forall e | 0 <= e < |be'| ensures BucketOk(st', be'[e], EntityKey(e)) {
      if e < |be| {
        if e == c.entityId {
          AppendFresh(st, st', be[e], c, EntityKey(e));
        } else {
          KeepBucket(st, st', be[e], EntityKey(e));
        }
      } else if e == c.entityId {
        AppendFresh(st, st', [], c, EntityKey(e));
        assert [] + [c] == [c];
      }
    }
    forall i | 0 <= i < |st'| && st'[i].Live?
      ensures st'[i].comp.entityId < |be'| && st'[i].comp in be'[st'[i].comp.entityId]
    {
      if i != c.uniqueId {
        assert st'[i] == st[i];
      }
    }
  }

  /** Filing a newly live component c under its family keeps the family index in agreement with a
      storage that differs from the old one only in c's slot. */
  lemma FileFamily(st: seq<Slot>, st': seq<Slot>, bf: map<nat, seq<Component>>, c: Component)
    requires FamilyIndexOk(st, bf) && IsLiveIn(st', c)
    requires forall x :: IsLiveIn(st, x) ==> IsLiveIn(st', x) && x.uniqueId != c.uniqueId
    requires forall i :: 0 <= i < |st'| && st'[i].Live? && i != c.uniqueId ==> i < |st| && st'[i] == st[i]
    ensures FamilyIndexOk(st', bf[c.familyId := Bucket(bf, c.familyId) + [c]])
  {
    var bf' := bf[c.familyId := Bucket(bf, c.familyId) + [c]];
    forall f | f in bf' ensures BucketOk(st', bf'[f], FamilyKey(f)) {
      if f == c.familyId {
        AppendFresh(st, st', Bucket(bf, f), c, FamilyKey(f));
      } else {
        KeepBucket(st, st', bf[f], FamilyKey(f));
      }
    }
    forall i | 0 <= i < |st'| && st'[i].Live?
      ensures st'[i].comp in Bucket(bf', st'[i].comp.familyId)
    {
      if i != c.uniqueId {
        assert st'[i] == st[i];
      }
    }
  }

  /** Installing a record into an empty slot whose id is not waiting for reuse keeps the four views in
      agreement, and the record is live afterwards. */
  lemma InstallKeepsCoherent(t: Tables, c: Component)
    requires Coherent(t) && c.uniqueId >= 1
    requires c.uniqueId >= |t.storage| || t.storage[c.uniqueId].Empty?
    requires c.uniqueId !in t.erased
    ensures Coherent(Installed(t, c))
    ensures IsLiveIn(Installed(t, c).storage, c)
  {
    InstalledSlots(t, c);
    var st' := Installed(t, c).storage;
    FileEntity(t.storage, st', t.byEntity, c);
    FileFamily(t.storage, st', t.byFamily, c);
  }

  /** Replace(u, e) for a component type of family f (ComponentSystem.h:349-375): installs a fresh
      record under id u when RefCount(u) is 0, else changes nothing and hands out slot 0. */
  function Replaced(t: Tables, u: nat, e: nat, f: nat): (r: (Tables, Option<Component>))
    requires |t.storage| >= 1
    ensures Basic(t) && u >= 1 ==> Basic(r.0)
    ensures RefCountIn(t.storage, u) == 0 ==>
              r.1 == Some(Component(u, e, f)) && IsLiveIn(r.0.storage, r.1.value)
    ensures RefCountIn(t.storage, u) > 0 ==> r.0 == t && (Basic(t) ==> r.1 == None)
  {
    if RefCountIn(t.storage, u) == 0 then
      var c := Component(u, e, f);
      (Installed(t, c), Some(c))
    else
      (t, View(t.storage[0]))
  }

  /** CreateComponent(e) for a component type of family f (ComponentSystem.h:251-279): a new record
      at the end of storage when no id waits for reuse; otherwise the oldest recycled id is popped
      and handed to Replace. */
  function Created(t: Tables, e: nat, f: nat): (r: (Tables, Option<Component>))
    requires Basic(t)
    ensures Basic(r.0)
    ensures t.erased == [] ==> r.1 == Some(Component(|t.storage|, e, f))
    ensures t.erased != [] ==> r.0.erased == t.erased[1..]
    ensures r.1.Some? ==> IsLiveIn(r.0.storage, r.1.value)
  {
    if t.erased == [] then
      var c := Component(|t.storage|, e, f);
      (Installed(t, c), Some(c))
    else
      Replaced(t.(erased := t.erased[1..]), t.erased[0], e, f)
  }

  /** Creating a component keeps the four views in agreement, always succeeds in agreeing tables (a
      recycled slot is empty, so nothing holds it), and reuses the oldest recycled id first. */
  lemma CreateKeepsCoherent(t: Tables, e: nat, f: nat)
    requires Coherent(t)
    ensures Coherent(Created(t, e, f).0)
    ensures Created(t, e, f).1.Some?
    ensures Created(t, e, f).1.value.uniqueId == if t.erased == [] then |t.storage| else t.erased[0]
    ensures IsLiveIn(Created(t, e, f).0.storage, Created(t, e, f).1.value)
  {
    if t.erased == [] {
      InstallKeepsCoherent(t, Component(|t.storage|, e, f));
    } else {
      var u := t.erased[0];
      var t' := t.(erased := t.erased[1..]);
      assert u in t.erased;
      assert u !in t.erased[1..] by {
        forall k | 0 <= k < |t.erased[1..]| ensures t.erased[1..][k] != u {
          assert t.erased[1..][k] == t.erased[k + 1];
        }
      }
      assert NoDup(t'.erased) by {
        forall i, j | 0 <= i < j < |t'.erased| ensures t'.erased[i] != t'.erased[j] {
          assert t'.erased[i] == t.erased[i + 1] && t'.erased[j] == t.erased[j + 1];
        }
      }
      assert forall k :: k in t'.erased ==> k in t.erased;
      InstallKeepsCoherent(t', Component(u, e, f));
    }
  }

  /** AttachComponent (ComponentSystem.h:286-296): the record goes to the end of storage, whatever
      its own unique id says, and into both indexes. */
  function Attached(t: Tables, c: Component): (r: Tables)
    ensures Basic(t) && c.uniqueId >= 1 ==> Basic(r)
    ensures |r.storage| == |t.storage| + 1 && r.storage[|t.storage|] == Live(c, 1)
  {
    Indexed(t.(storage := t.storage + [Live(c, 1)]), c)
  }

  /** An attached record keeps the views in agreement exactly when its unique id is the position it
      lands in, the current size of storage. */
  lemma AttachCoherentIff(t: Tables, c: Component)
    requires Coherent(t)
    ensures Coherent(Attached(t, c)) <==> c.uniqueId == |t.storage|
  {
    if c.uniqueId == |t.storage| {
      var i := Installed(t, c);
      InstallKeepsCoherent(t, c);
      assert t.storage + [Live(c, 0)] == Resized(t.storage, c.uniqueId + 1)[c.uniqueId := Live(c, 0)];
      assert Attached(t, c) == i.(storage := i.storage[c.uniqueId := Live(c, 1)]);
      HoldersKeepCoherent(i, c.uniqueId, 1);
    } else {
      var st' := Attached(t, c).storage;
      assert st'[|t.storage|].Live? && st'[|t.storage|].comp.uniqueId != |t.storage|;
    }
  }

  /** AttachArray (ComponentSystem.h:304-312): AttachComponent on each record in order. */
  function AttachedAll(t: Tables, cs: seq<Component>): (r: Tables)
    ensures Basic(t) && (forall c :: c in cs ==> c.uniqueId >= 1) ==> Basic(r)
    ensures |r.storage| == |t.storage| + |cs|
    decreases |cs|
  {
    if cs == [] then t
    else
      assert forall c :: c in cs[..|cs| - 1] ==> c in cs;
      Attached(AttachedAll(t, cs[..|cs| - 1]), cs[|cs| - 1])
  }

  /** Attaching the first i + 1 records is attaching the first i, then record i. */
  lemma AttachedAllStep(t: Tables, cs: seq<Component>, i: nat)
    requires i < |cs|
    ensures AttachedAll(t, cs[..i + 1]) == Attached(AttachedAll(t, cs[..i]), cs[i])
  {
    assert cs[..i + 1][..i] == cs[..i];
  }

  /** Attaching records numbered from the current size of storage on, in order, keeps the views in
      agreement. */
  lemma {:induction false} AttachAllKeepsCoherent(t: Tables, cs: seq<Component>)
    requires Coherent(t)
    requires forall i :: 0 <= i < |cs| ==> cs[i].uniqueId == |t.storage| + i
    ensures Coherent(AttachedAll(t, cs))
    decreases |cs|
  {
    if cs != [] {
      AttachAllKeepsCoherent(t, cs[..|cs| - 1]);
      AttachCoherentIff(AttachedAll(t, cs[..|cs| - 1]), cs[|cs| - 1]);
    }
  }

  /** Every component live before, other than the one under id u, is live after. */
  ghost predicate LiveKept(st: seq<Slot>, st': seq<Slot>, u: nat) {
    forall x :: IsLiveIn(st, x) && x.uniqueId != u ==> IsLiveIn(st', x)
  }

  /** Removing the component with id u from a bucket keeps it well filed once slot u is vacated. */
  lemma DropFromBucket(st: seq<Slot>, st': seq<Slot>, b: seq<Component>, k: Key, u: nat)
    requires BucketOk(st, b, k) && LiveKept(st, st', u)
    ensures BucketOk(st', RemoveFirstUid(b, u), k)
  {
    RemoveFirstUidMembers(b, u);
  }

  /** The live component c at u taken out of its entity bucket (the first match of its id), with
      storage replaced by st' in which slot u is no longer live and every other slot is as it was:
      the entity index still agrees with storage. */
  lemma UnfileEntity(st: seq<Slot>, st': seq<Slot>, be: seq<seq<Component>>, u: nat)
    requires SlotsOk(st) && EntityIndexOk(st, be) && u < |st| && st[u].Live?
    requires LiveKept(st, st', u)
    requires forall i :: 0 <= i < |st'| && st'[i].Live? ==> i < |st| && i != u && st'[i] == st[i]
    ensures st[u].comp.entityId < |be|
    ensures EntityIndexOk(st', be[st[u].comp.entityId := RemoveFirstUid(be[st[u].comp.entityId], u)])
  {
    var c := st[u].comp;
    var be' := be[c.entityId := RemoveFirstUid(be[c.entityId], u)];
    forall e | 0 <= e < |be'| ensures BucketOk(st', be'[e], EntityKey(e)) {
      if e == c.entityId {
        DropFromBucket(st, st', be[e], EntityKey(e), u);
      } else {
        forall x | x in be[e] ensures IsLiveIn(st', x) {
          assert IsLiveIn(st, x) && x.entityId == e;
        }
      }
    }
    forall i | 0 <= i < |st'| && st'[i].Live?
      ensures st'[i].comp.entityId < |be'| && st'[i].comp in be'[st'[i].comp.entityId]
    {
      var x := st'[i].comp;
      assert st[i] == st'[i];
      RemoveFirstUidMembers(be[x.entityId], u);
    }
  }

  /** The live component c at u taken out of its family bucket (the first match of its id), with
      storage replaced by st' as in UnfileEntity: the family index still agrees with storage. */
  lemma UnfileFamily(st: seq<Slot>, st': seq<Slot>, bf: map<nat, seq<Component>>, u: nat)
    requires SlotsOk(st) && FamilyIndexOk(st, bf) && u < |st| && st[u].Live?
    requires LiveKept(st, st', u)
    requires forall i :: 0 <= i < |st'| && st'[i].Live? ==> i < |st| && i != u && st'[i] == st[i]
    ensures FamilyIndexOk(st', bf[st[u].comp.familyId := RemoveFirstUid(Bucket(bf, st[u].comp.familyId), u)])
  {
    var c := st[u].comp;
    var bf' := bf[c.familyId := RemoveFirstUid(Bucket(bf, c.familyId), u)];
    forall f | f in bf' ensures BucketOk(st', bf'[f], FamilyKey(f)) {
      if f == c.familyId {
        DropFromBucket(st, st', Bucket(bf, f), FamilyKey(f), u);
      } else {
        forall x | x in bf[f] ensures IsLiveIn(st', x) {
          assert IsLiveIn(st, x) && x.familyId == f;
        }
      }
    }
    forall i | 0 <= i < |st'| && st'[i].Live?
      ensures st'[i].comp in Bucket(bf', st'[i].comp.familyId)
    {
      var x := st'[i].comp;
      assert st[i] == st'[i];
      assert BucketOk(st, Bucket(bf, x.familyId), FamilyKey(x.familyId));
      RemoveFirstUidMembers(Bucket(bf, x.familyId), u);
    }
  }

  /** What Release(u) needs in order not to dereference an empty or out-of-range slot, nor to index
      past the entity index (ComponentSystem.h:395-396). */
  predicate ReleasableIn(t: Tables, u: nat) {
    && u < |t.storage|
    && t.storage[u].Live?
    && (t.storage[u].holders == 0 ==> t.storage[u].comp.entityId < |t.byEntity|)
  }

  /** Release(u) (ComponentSystem.h:389-427): refused while anyone outside holds the component;
      otherwise the first entry with id u leaves the entity bucket and the family bucket, the slot is
      emptied but kept, and u joins the recycled ids. */
  function Released(t: Tables, u: nat): (r: (Tables, bool))
    requires ReleasableIn(t, u)
    ensures Basic(t) ==> Basic(r.0)
    ensures r.1 <==> RefCountIn(t.storage, u) == 0
    ensures !r.1 ==> r.0 == t
    ensures r.1 ==> |r.0.storage| == |t.storage| && r.0.storage[u].Empty? && u in r.0.erased
  {
    if t.storage[u].holders > 0 then
      (t, false)
    else
      var c := t.storage[u].comp;
      (Tables(
        t.storage[u := Empty],
        t.erased + [u],
        t.byEntity[c.entityId := RemoveFirstUid(t.byEntity[c.entityId], u)],
        t.byFamily[c.familyId := RemoveFirstUid(Bucket(t.byFamily, c.familyId), u)]),
       true)
  }

  /** In agreeing tables a live slot can always be released once nobody outside holds it, and the
      release keeps the views in agreement. */
  lemma ReleaseKeepsCoherent(t: Tables, u: nat)
    requires Coherent(t) && u < |t.storage| && t.storage[u].Live?
    ensures ReleasableIn(t, u)
    ensures Coherent(Released(t, u).0)
    ensures Released(t, u).1 ==> !IsLiveIn(Released(t, u).0.storage, t.storage[u].comp)
  {
    var st := t.storage;
    assert st[u].comp.entityId < |t.byEntity|;
    if st[u].holders == 0 {
      var r := Released(t, u).0;
      var st' := st[u := Empty];
      assert r.storage == st';
      VacateSlot(st, u);
      assert EntityIndexOk(st', r.byEntity) by {
        UnfileEntity(st, st', t.byEntity, u);
      }
      assert FamilyIndexOk(st', r.byFamily) by {
        UnfileFamily(st, st', t.byFamily, u);
      }
      RecycleId(st, t.erased, u);
    }
  }


  /** What DeleteComponent(u) needs: an in-range slot must be live (ComponentSystem.h:667 reads it
      unchecked), and once the family bucket has yielded the id, the entity bucket is read unchecked
      (ComponentSystem.h:686). */
  predicate DeletableIn(t: Tables, u: nat) {
    u < |t.storage| ==>
      && t.storage[u].Live?
      && (t.storage[u].comp.uniqueId in Uids(Bucket(t.byFamily, t.storage[u].comp.familyId)) ==>
            t.storage[u].comp.entityId < |t.byEntity|)
  }

  /** DeleteComponent(u) (ComponentSystem.h:663-704): an out-of-range id succeeds with no change;
      otherwise the record's id is looked up and erased in its family bucket, then in its entity
      bucket, failing at the first bucket that lacks it (after the first, the family bucket has
      already lost it); on success the last slot is popped, any other slot emptied and recycled. */
  function ComponentDeleted(t: Tables, u: nat): (r: (Tables, bool))
    requires DeletableIn(t, u)
    ensures Basic(t) ==> Basic(r.0)
    ensures u >= |t.storage| ==> r == (t, true)
    ensures r.1 && u < |t.storage| ==> u >= |r.0.storage| || r.0.storage[u].Empty?
  {
    if u >= |t.storage| then
      (t, true)
    else
      var c := t.storage[u].comp;
      var fb := Bucket(t.byFamily, c.familyId);
      if c.uniqueId !in Uids(fb) then
        (t.(byFamily := t.byFamily[c.familyId := fb]), false)
      else
        var bf := t.byFamily[c.familyId := RemoveFirstUid(fb, c.uniqueId)];
        if c.uniqueId !in Uids(t.byEntity[c.entityId]) then
          (t.(byFamily := bf), false)
        else
          var be := t.byEntity[c.entityId := RemoveFirstUid(t.byEntity[c.entityId], c.uniqueId)];
          if u == |t.storage| - 1 then
            (Tables(t.storage[..u], t.erased, be, bf), true)
          else
            (Tables(t.storage[u := Empty], t.erased + [u], be, bf), true)
  }

  /** In agreeing tables, deleting an out-of-range or live slot always succeeds and keeps the views
      in agreement: the half-updated failure paths cannot be reached. */
  lemma DeleteComponentKeepsCoherent(t: Tables, u: nat)
    requires Coherent(t) && (u < |t.storage| ==> t.storage[u].Live?)
    ensures DeletableIn(t, u)
    ensures ComponentDeleted(t, u).1
    ensures Coherent(ComponentDeleted(t, u).0)
  {
    if u < |t.storage| {
      var st := t.storage;
      var c := st[u].comp;
      InUids(Bucket(t.byFamily, c.familyId), c);
      InUids(t.byEntity[c.entityId], c);
      var r := ComponentDeleted(t, u).0;
      if u == |st| - 1 {
        var st' := st[..u];
        assert r.storage == st' && r.erased == t.erased;
        PopSlot(st, t.erased, u);
        assert EntityIndexOk(st', r.byEntity) by {
          UnfileEntity(st, st', t.byEntity, u);
        }
        assert FamilyIndexOk(st', r.byFamily) by {
          UnfileFamily(st, st', t.byFamily, u);
        }
      } else {
        var st' := st[u := Empty];
        assert r.storage == st' && r.erased == t.erased + [u];
        VacateSlot(st, u);
        RecycleId(st, t.erased, u);
        assert EntityIndexOk(st', r.byEntity) by {
          UnfileEntity(st, st', t.byEntity, u);
        }
        assert FamilyIndexOk(st', r.byFamily) by {
          UnfileFamily(st, st', t.byFamily, u);
        }
      }
    }
  }

  /** Emptying the live slot u keeps storage well formed and every other live component live. */
  lemma VacateSlot(st: seq<Slot>, u: nat)
    requires SlotsOk(st) && u < |st| && st[u].Live?
    ensures SlotsOk(st[u := Empty])
    ensures LiveKept(st, st[u := Empty], u)
    ensures forall i :: 0 <= i < |st[u := Empty]| && st[u := Empty][i].Live? ==>
              i < |st| && i != u && st[u := Empty][i] == st[i]
  {
  }

  /** Popping the live last slot u keeps storage well formed, every other live component live, and
      the recycled ids (which name empty slots, so not u) inside storage. */
  lemma PopSlot(st: seq<Slot>, er: seq<nat>, u: nat)
    requires SlotsOk(st) && ErasedOk(st, er) && u == |st| - 1 && st[u].Live?
    ensures SlotsOk(st[..u]) && ErasedOk(st[..u], er)
    ensures LiveKept(st, st[..u], u)
    ensures forall i :: 0 <= i < |st[..u]| && st[..u][i].Live? ==> i < |st| && i != u && st[..u][i] == st[i]
  {
  }

  /** Emptying the live slot u and recycling u keeps the recycled ids distinct and naming empty
      slots. */
  lemma RecycleId(st: seq<Slot>, er: seq<nat>, u: nat)
    requires SlotsOk(st) && ErasedOk(st, er) && u < |st| && st[u].Live?
    ensures ErasedOk(st[u := Empty], er + [u])
  {
    var er' := er + [u];
    forall i, j | 0 <= i < j < |er'| ensures er'[i] != er'[j] {
      if j == |er'| - 1 { assert er'[i] in er; }
    }
  }


  /** The reset loop of DeleteEntity (ComponentSystem.h:740-742): the slot of every listed record is
      emptied, and no other slot changes. */
  function ClearSlots(st: seq<Slot>, cs: seq<Component>): (r: seq<Slot>)
    requires forall c :: c in cs ==> c.uniqueId < |st|
    ensures |r| == |st|
    ensures forall i :: 0 <= i < |st| ==> r[i] == if i in Uids(cs) then Empty else st[i]
    decreases |cs|
  {
    if cs == [] then st
    else
      var init := cs[..|cs| - 1];
      assert forall c :: c in init ==> c in cs;
      assert Uids(cs) == Uids(init) + [cs[|cs| - 1].uniqueId];
      ClearSlots(st, init)[cs[|cs| - 1].uniqueId := Empty]
  }

  /** One pass of the family loop of DeleteEntity (ComponentSystem.h:725-735): the skipping erase
      loop on the record's family bucket, and the key dropped when the bucket ends up empty. */
  function PurgeOne(bf: map<nat, seq<Component>>, c: Component): (r: map<nat, seq<Component>>)
    ensures forall f :: f in r ==> f in bf
    ensures forall f :: f != c.familyId ==> (f in r <==> f in bf) && (f in r ==> r[f] == bf[f])
  {
    var b := EraseSkipping(Bucket(bf, c.familyId), 0, c.uniqueId);
    if b == [] then bf - {c.familyId} else bf[c.familyId := b]
  }

  /** The family loop of DeleteEntity over all listed records (ComponentSystem.h:721-736). */
  function PurgeFamilies(bf: map<nat, seq<Component>>, cs: seq<Component>): (r: map<nat, seq<Component>>)
    ensures forall f :: f in r ==> f in bf
    ensures forall f :: f in bf && (forall c :: c in cs ==> c.familyId != f) ==> f in r && r[f] == bf[f]
    decreases |cs|
  {
    if cs == [] then bf else PurgeOne(PurgeFamilies(bf, cs[..|cs| - 1]), cs[|cs| - 1])
  }

  /** One pass removes the record from the family index and nothing else: in a well-filed index no
      other family's bucket can hold its id. */
  lemma PurgeOneSpec(st: seq<Slot>, m: map<nat, seq<Component>>, c: Component)
    requires SlotsOk(st) && IsLiveIn(st, c)
    requires forall f :: f in m ==> BucketOk(st, m[f], FamilyKey(f))
    ensures forall f :: f in PurgeOne(m, c) ==>
              && f in m
              && BucketOk(st, PurgeOne(m, c)[f], FamilyKey(f))
              && (PurgeOne(m, c)[f] == [] ==> m[f] == [])
    ensures forall f, x :: x in Bucket(PurgeOne(m, c), f) <==> x in Bucket(m, f) && x.uniqueId != c.uniqueId
  {
    var b := Bucket(m, c.familyId);
    assert BucketOk(st, b, FamilyKey(c.familyId));
    EraseSkippingRemovesFirst(b, 0, c.uniqueId);
    RemoveFirstUidMembers(b, c.uniqueId);
    var r := PurgeOne(m, c);
    forall f, x ensures x in Bucket(r, f) <==> x in Bucket(m, f) && x.uniqueId != c.uniqueId {
      assert x in Bucket(m, f) ==> IsLiveIn(st, x) && x.familyId == f;
    }
  }

  /** When every bucket holds live components under their own family and every listed record is
      live, the family loop removes exactly the listed records from the family index, keeps each
      bucket well filed, and drops from the map every bucket it empties. */
  lemma {:induction false} PurgeFamiliesSpec(st: seq<Slot>, bf: map<nat, seq<Component>>, cs: seq<Component>)
    requires SlotsOk(st)
    requires forall f :: f in bf ==> BucketOk(st, bf[f], FamilyKey(f))
    requires forall c :: c in cs ==> IsLiveIn(st, c)
    ensures forall f :: f in PurgeFamilies(bf, cs) ==>
              && f in bf
              && BucketOk(st, PurgeFamilies(bf, cs)[f], FamilyKey(f))
              && (PurgeFamilies(bf, cs)[f] == [] ==> bf[f] == [])
    ensures forall f, x :: x in Bucket(PurgeFamilies(bf, cs), f) <==>
              x in Bucket(bf, f) && x.uniqueId !in Uids(cs)
    decreases |cs|
  {
    if cs == [] {
      assert Uids(cs) == [];
    } else {
      var init := cs[..|cs| - 1];
      var c := cs[|cs| - 1];
      assert forall y :: y in init ==> y in cs;
      assert Uids(cs) == Uids(init) + [c.uniqueId];
      PurgeFamiliesSpec(st, bf, init);
      PurgeOneSpec(st, PurgeFamilies(bf, init), c);
    }
  }

  /** The compaction loop of DeleteEntity (ComponentSystem.h:745-757): while the last slot is empty,
      pop it and erase the first occurrence of its id from the recycled ids. */
  function CompactTail(st: seq<Slot>, er: seq<nat>): (r: (seq<Slot>, seq<nat>))
    ensures |r.0| <= |st| && r.0 == st[..|r.0|]
    ensures r.0 != [] ==> r.0[|r.0| - 1].Live?
    ensures forall j :: |r.0| <= j < |st| ==> st[j].Empty?
    ensures forall k :: k in r.1 ==> k in er
    decreases |st|
  {
    if st != [] && st[|st| - 1].Empty? then CompactTail(st[..|st| - 1], RemoveFirst(er, |st| - 1))
    else (st, er)
  }

  /** On a list of distinct recycled ids, compaction removes exactly the ids of the popped slots and
      keeps the rest distinct. */
  lemma {:induction false} CompactTailErased(st: seq<Slot>, er: seq<nat>)
    requires NoDup(er)
    ensures NoDup(CompactTail(st, er).1)
    ensures forall k :: k in CompactTail(st, er).1 <==>
              k in er && (k < |CompactTail(st, er).0| || k >= |st|)
    decreases |st|
  {
    if st != [] && st[|st| - 1].Empty? {
      RemoveFirstMembers(er, |st| - 1);
      CompactTailErased(st[..|st| - 1], RemoveFirst(er, |st| - 1));
    }
  }

  /** What DeleteEntity(e) needs once the entity exists: its bucket is read unchecked
      (ComponentSystem.h:469, 718), the slot of each of its records is reset unchecked
      (ComponentSystem.h:741), and some live slot must survive, or the compaction loop pops the dummy
      and then calls pop_back on an empty vector (ComponentSystem.h:745-747). */
  predicate EntityDeletableIn(t: Tables, e: nat) {
    && e < |t.byEntity|
    && (forall c :: c in t.byEntity[e] ==> c.uniqueId < |t.storage|)
    && (exists i :: 0 <= i < |t.storage| && t.storage[i].Live? && i !in Uids(t.byEntity[e]))
  }

  /** The component side of DeleteEntity(e) (ComponentSystem.h:717-759): each record's id joins the
      recycled ids and leaves its family bucket, the entity bucket is cleared, the records' slots are
      emptied, and trailing empty slots are compacted away. */
  function EntityDeleted(t: Tables, e: nat): (r: Tables)
    requires EntityDeletableIn(t, e)
    ensures |r.storage| <= |t.storage| && |r.byEntity| == |t.byEntity| && r.byEntity[e] == []
    ensures forall e' :: 0 <= e' < |t.byEntity| && e' != e ==> r.byEntity[e'] == t.byEntity[e']
    ensures forall f :: f in r.byFamily ==> f in t.byFamily
  {
    var cs := t.byEntity[e];
    var tail := CompactTail(ClearSlots(t.storage, cs), t.erased + Uids(cs));
    Tables(tail.0, tail.1, t.byEntity[e := []], PurgeFamilies(t.byFamily, cs))
  }

  /** Deleting an entity's components keeps the dummy slot in place and id 0 out of the recycled ids. */
  lemma EntityDeletedKeepsBasic(t: Tables, e: nat)
    requires Basic(t) && EntityDeletableIn(t, e)
    ensures Basic(EntityDeleted(t, e))
  {
    var cs := t.byEntity[e];
    var live :| 0 <= live < |t.storage| && t.storage[live].Live? && live !in Uids(cs);
    var st1 := ClearSlots(t.storage, cs);
    assert st1[live].Live?;
    assert 0 !in Uids(cs) by {
      forall k | 0 <= k < |cs| ensures Uids(cs)[k] != 0 {
        assert cs[k] in cs;
      }
    }
  }

  /** In agreeing tables, a live component's id is in the bucket of entity e exactly when the
      component belongs to e. */
  lemma EntityMembers(t: Tables, e: nat)
    requires Coherent(t) && e < |t.byEntity|
    ensures forall x :: IsLiveIn(t.storage, x) ==> (x.uniqueId in Uids(t.byEntity[e]) <==> x.entityId == e)
  {
    var cs := t.byEntity[e];
    forall x | IsLiveIn(t.storage, x) ensures x.uniqueId in Uids(cs) <==> x.entityId == e {
      if x.entityId == e {
        assert t.storage[x.uniqueId].comp == x;
        InUids(cs, x);
      }
      if x.uniqueId in Uids(cs) {
        var k :| 0 <= k < |cs| && Uids(cs)[k] == x.uniqueId;
        assert cs[k] in cs;
      }
    }
  }

  /** The recycled ids after the entity's ids are appended are still distinct: the old ones name
      empty slots, the entity's records live ones. */
  lemma DeletedErasedDistinct(t: Tables, e: nat)
    requires Coherent(t) && e < |t.byEntity|
    ensures NoDup(t.erased + Uids(t.byEntity[e]))
  {
    var cs := t.byEntity[e];
    var er1 := t.erased + Uids(cs);
    forall i, j | 0 <= i < j < |er1| ensures er1[i] != er1[j] {
      if j >= |t.erased| {
        assert cs[j - |t.erased|] in cs;
        if i < |t.erased| {
          assert er1[i] in t.erased;
        } else {
          assert cs[i - |t.erased|] in cs;
        }
      }
    }
  }

  /** Emptying the slots of the listed records and then compacting keeps a live slot that was not
      listed: a component is live afterwards exactly when it was live and not listed, and storage
      still starts with the empty dummy and now ends in a live slot. */
  lemma ClearThenCompact(st: seq<Slot>, cs: seq<Component>, er: seq<nat>, live: nat)
    requires SlotsOk(st) && forall c :: c in cs ==> c.uniqueId < |st|
    requires live < |st| && st[live].Live? && live !in Uids(cs)
    ensures forall x :: IsLiveIn(CompactTail(ClearSlots(st, cs), er).0, x) <==>
              IsLiveIn(st, x) && x.uniqueId !in Uids(cs)
    ensures SlotsOk(CompactTail(ClearSlots(st, cs), er).0)
    ensures live < |CompactTail(ClearSlots(st, cs), er).0|
  {
    var st1 := ClearSlots(st, cs);
    var st2 := CompactTail(st1, er).0;
    assert st1[live].Live?;
    assert live < |st2|;
    forall x ensures IsLiveIn(st2, x) <==> IsLiveIn(st, x) && x.uniqueId !in Uids(cs) {
      if IsLiveIn(st2, x) {
        assert st2[x.uniqueId] == st1[x.uniqueId];
      }
      if IsLiveIn(st, x) && x.uniqueId !in Uids(cs) {
        assert st1[x.uniqueId] == st[x.uniqueId];
      }
    }
    forall i | 0 <= i < |st2| && st2[i].Live? ensures st2[i].comp.uniqueId == i {
      assert st2[i] == st1[i];
    }
    assert st2[0] == st1[0];
  }

  /** After deleting entity e, a component is live exactly when it was live and its id is not one of
      e's records, and storage still starts with the empty dummy and ends in a live slot. */
  lemma DeletedSlots(t: Tables, e: nat)
    requires SlotsOk(t.storage) && EntityDeletableIn(t, e)
    ensures forall x :: IsLiveIn(EntityDeleted(t, e).storage, x) <==>
              IsLiveIn(t.storage, x) && x.uniqueId !in Uids(t.byEntity[e])
    ensures SlotsOk(EntityDeleted(t, e).storage)
    ensures EntityDeleted(t, e).storage[|EntityDeleted(t, e).storage| - 1].Live?
  {
    var cs := t.byEntity[e];
    var er := t.erased + Uids(cs);
    var st2 := CompactTail(ClearSlots(t.storage, cs), er).0;
    assert EntityDeleted(t, e).storage == st2;
    var live :| 0 <= live < |t.storage| && t.storage[live].Live? && live !in Uids(cs);
    assert st2 != [] && st2[|st2| - 1].Live? by {
      ClearThenCompact(t.storage, cs, er, live);
    }
    assert forall x :: IsLiveIn(st2, x) <==> IsLiveIn(t.storage, x) && x.uniqueId !in Uids(cs) by {
      ClearThenCompact(t.storage, cs, er, live);
    }
    assert SlotsOk(st2) by {
      ClearThenCompact(t.storage, cs, er, live);
    }
  }

  /** After deleting entity e, a component is live exactly when it was live and belongs to another
      entity. */
  lemma DeletedLiveness(t: Tables, e: nat)
    requires Coherent(t) && EntityDeletableIn(t, e)
    ensures forall x :: IsLiveIn(EntityDeleted(t, e).storage, x) <==>
              IsLiveIn(t.storage, x) && x.entityId != e
    ensures SlotsOk(EntityDeleted(t, e).storage)
    ensures EntityDeleted(t, e).storage[|EntityDeleted(t, e).storage| - 1].Live?
  {
    DeletedSlots(t, e);
    EntityMembers(t, e);
  }

  /** After deleting entity e the entity index agrees with storage, with e's bucket empty. */
  lemma DeletedEntityIndex(t: Tables, e: nat)
    requires Coherent(t) && EntityDeletableIn(t, e)
    ensures EntityIndexOk(EntityDeleted(t, e).storage, EntityDeleted(t, e).byEntity)
  {
    DeletedLiveness(t, e);
    ClearedEntityIndex(t.storage, EntityDeleted(t, e).storage, t.byEntity, e);
  }

  /** Clearing the bucket of entity e in a well-filed entity index leaves an index that agrees with a
      storage holding exactly the components that were live and belong to another entity. */
  lemma ClearedEntityIndex(st: seq<Slot>, st': seq<Slot>, be: seq<seq<Component>>, e: nat)
    requires SlotsOk(st') && EntityIndexOk(st, be) && e < |be|
    requires forall x :: IsLiveIn(st', x) <==> IsLiveIn(st, x) && x.entityId != e
    ensures EntityIndexOk(st', be[e := []])
  {
    var be' := be[e := []];
    forall e' | 0 <= e' < |be'| ensures BucketOk(st', be'[e'], EntityKey(e')) {
      if e' != e {
        assert BucketOk(st, be[e'], EntityKey(e'));
      }
    }
    forall i | 0 <= i < |st'| && st'[i].Live?
      ensures st'[i].comp.entityId < |be'| && st'[i].comp in be'[st'[i].comp.entityId]
    {
      assert IsLiveIn(st', st'[i].comp);
    }
  }


  /** After deleting entity e the family index agrees with storage, holds none of e's components, and
      has lost exactly the buckets the deletion emptied. */
  lemma DeletedFamilyIndex(t: Tables, e: nat)
    requires Coherent(t) && EntityDeletableIn(t, e)
    ensures FamilyIndexOk(EntityDeleted(t, e).storage, EntityDeleted(t, e).byFamily)
    ensures forall f, x :: x in Bucket(EntityDeleted(t, e).byFamily, f) ==> x.entityId != e
    ensures forall f :: f in EntityDeleted(t, e).byFamily ==>
              f in t.byFamily && (EntityDeleted(t, e).byFamily[f] == [] ==> t.byFamily[f] == [])
  {
    var cs := t.byEntity[e];
    assert forall c :: c in cs ==> IsLiveIn(t.storage, c) by {
      assert BucketOk(t.storage, cs, EntityKey(e));
    }
    DeletedLiveness(t, e);
    EntityMembers(t, e);
    PurgedFamilyIndex(t.storage, EntityDeleted(t, e).storage, t.byFamily, cs, e);
  }

  /** Purging the records of entity e from a well-filed family index leaves an index that agrees with
      a storage holding exactly the components that were live and belong to another entity. */
  lemma PurgedFamilyIndex(st: seq<Slot>, st': seq<Slot>, bf: map<nat, seq<Component>>,
                          cs: seq<Component>, e: nat)
    requires SlotsOk(st) && SlotsOk(st') && FamilyIndexOk(st, bf)
    requires forall c :: c in cs ==> IsLiveIn(st, c)
    requires forall x :: IsLiveIn(st, x) ==> (x.uniqueId in Uids(cs) <==> x.entityId == e)
    requires forall x :: IsLiveIn(st', x) <==> IsLiveIn(st, x) && x.entityId != e
    ensures FamilyIndexOk(st', PurgeFamilies(bf, cs))
    ensures forall f, x :: x in Bucket(PurgeFamilies(bf, cs), f) ==> x.entityId != e
    ensures forall f :: f in PurgeFamilies(bf, cs) ==>
              f in bf && (PurgeFamilies(bf, cs)[f] == [] ==> bf[f] == [])
  {
    var bf' := PurgeFamilies(bf, cs);
    PurgeFamiliesSpec(st, bf, cs);
    forall f | f in bf' ensures BucketOk(st', bf'[f], FamilyKey(f)) {
      assert bf'[f] == Bucket(bf', f);
      forall x | x in bf'[f] ensures IsLiveIn(st', x) {
        assert x in Bucket(bf, f) && x.uniqueId !in Uids(cs);
      }
    }
    forall f, x | x in Bucket(bf', f) ensures x.entityId != e {
      assert x in Bucket(bf, f) && x.uniqueId !in Uids(cs);
      assert f in bf;
    }
    forall i | 0 <= i < |st'| && st'[i].Live?
      ensures st'[i].comp in Bucket(bf', st'[i].comp.familyId)
    {
      assert IsLiveIn(st', st'[i].comp);
    }
  }


  /** After deleting entity e the recycled ids are distinct and name empty slots inside storage. */
  lemma DeletedErased(t: Tables, e: nat)
    requires Coherent(t) && EntityDeletableIn(t, e)
    ensures ErasedOk(EntityDeleted(t, e).storage, EntityDeleted(t, e).erased)
  {
    var st, cs := t.storage, t.byEntity[e];
    var er := t.erased + Uids(cs);
    assert NoDup(er) by {
      DeletedErasedDistinct(t, e);
    }
    forall k | k in er ensures 1 <= k < |st| && (k in Uids(cs) || st[k].Empty?) {
      if k in Uids(cs) {
        var j :| 0 <= j < |cs| && Uids(cs)[j] == k;
        assert cs[j] in cs;
      }
    }
    CompactedErasedOk(st, cs, er);
    assert EntityDeleted(t, e).storage == CompactTail(ClearSlots(st, cs), er).0;
    assert EntityDeleted(t, e).erased == CompactTail(ClearSlots(st, cs), er).1;
  }

  /** Recycled ids that name in-range slots other than the dummy, each either already empty or about
      to be emptied, all name empty slots once the slots are emptied and the tail compacted. */
  lemma CompactedErasedOk(st: seq<Slot>, cs: seq<Component>, er: seq<nat>)
    requires forall c :: c in cs ==> c.uniqueId < |st|
    requires NoDup(er)
    requires forall k :: k in er ==> 1 <= k < |st| && (k in Uids(cs) || st[k].Empty?)
    ensures ErasedOk(CompactTail(ClearSlots(st, cs), er).0, CompactTail(ClearSlots(st, cs), er).1)
  {
    var st1 := ClearSlots(st, cs);
    var r := CompactTail(st1, er);
    CompactTailErased(st1, er);
    forall k | k in r.1 ensures 1 <= k < |r.0| && r.0[k].Empty? {
      assert r.0[k] == st1[k];
    }
  }

  /** Deleting an entity in agreeing tables keeps the views in agreement and cascades: the entity's
      bucket is empty, no family bucket holds any of its components, family buckets it emptied are
      gone from the map, a component is live afterwards exactly when it was live and belongs to
      another entity, and storage ends in a live slot. */
  lemma EntityDeletedKeepsCoherent(t: Tables, e: nat)
    requires Coherent(t) && EntityDeletableIn(t, e)
    ensures Coherent(EntityDeleted(t, e))
    ensures EntityDeleted(t, e).byEntity[e] == []
    ensures forall f, x :: x in Bucket(EntityDeleted(t, e).byFamily, f) ==> x.entityId != e
    ensures forall f :: f in EntityDeleted(t, e).byFamily ==>
              f in t.byFamily && (EntityDeleted(t, e).byFamily[f] == [] ==> t.byFamily[f] == [])
    ensures forall x :: IsLiveIn(EntityDeleted(t, e).storage, x) <==>
              IsLiveIn(t.storage, x) && x.entityId != e
    ensures EntityDeleted(t, e).storage[|EntityDeleted(t, e).storage| - 1].Live?
  {
    DeletedLiveness(t, e);
    DeletedEntityIndex(t, e);
    DeletedFamilyIndex(t, e);
    DeletedErased(t, e);
  }

  /** The ids 1 .. n - 1 whose slots are empty, ascending: the list RebuildErasedIDs builds
      (ComponentSystem.h:618-625). */
  function EmptyIds(st: seq<Slot>, n: nat): (r: seq<nat>)
    requires n <= |st|
    ensures forall k :: k in r <==> 1 <= k < n && st[k].Empty?
  {
    if n <= 1 then []
    else EmptyIds(st, n - 1) + (if st[n - 1].Empty? then [n - 1] else [])
  }

  /** RebuildErasedIDs lists the empty slots in ascending order, so each id at most once. */
  lemma {:induction false} EmptyIdsAscending(st: seq<Slot>, n: nat)
    requires n <= |st|
    ensures forall i, j :: 0 <= i < j < |EmptyIds(st, n)| ==> EmptyIds(st, n)[i] < EmptyIds(st, n)[j]
    ensures NoDup(EmptyIds(st, n))
  {
    var r := EmptyIds(st, n);
    if n > 1 {
      var init := EmptyIds(st, n - 1);
      EmptyIdsAscending(st, n - 1);
      forall i, j | 0 <= i < j < |r| ensures r[i] < r[j] {
        if j >= |init| {
          assert r[i] == init[i] && init[i] in init;
        }
      }
    }
  }

  /** RebuildErasedIDs makes the recycled ids agree with storage again, whatever they were, as long
      as storage and both indexes agree. */
  lemma RebuildRestoresCoherent(t: Tables)
    requires SlotsOk(t.storage) && EntityIndexOk(t.storage, t.byEntity)
    requires FamilyIndexOk(t.storage, t.byFamily)
    ensures Coherent(t.(erased := EmptyIds(t.storage, |t.storage|)))
  {
    EmptyIdsAscending(t.storage, |t.storage|);
  }

  /** Growing storage with empty slots (Resize to at least the current size,
      ComponentSystem.h:590-592) keeps the views in agreement. */
  lemma GrowKeepsCoherent(t: Tables, n: nat)
    requires Coherent(t) && n >= |t.storage|
    ensures Coherent(t.(storage := Resized(t.storage, n)))
  {
    var st' := Resized(t.storage, n);
    assert forall x :: IsLiveIn(t.storage, x) ==> IsLiveIn(st', x);
    forall i | 0 <= i < n && st'[i].Live? ensures i < |t.storage| && st'[i] == t.storage[i] {
    }
  }

  /** In agreeing tables fewer ids wait for reuse than storage has slots (slot 0 never does). */
  lemma ErasedBound(t: Tables)
    requires Coherent(t)
    ensures |t.erased| < |t.storage|
  {
    NoDupBound(t.erased, 1, |t.storage|);
  }

  /** In agreeing tables every live component is filed exactly once under its entity and exactly once
      under its family. */
  lemma FiledOnce(t: Tables, u: nat)
    requires Coherent(t) && u < |t.storage| && t.storage[u].Live?
    ensures multiset(t.byEntity[t.storage[u].comp.entityId])[t.storage[u].comp] == 1
    ensures multiset(Bucket(t.byFamily, t.storage[u].comp.familyId))[t.storage[u].comp] == 1
  {
    var c := t.storage[u].comp;
    DistinctCount(t.byEntity[c.entityId]);
    assert BucketOk(t.storage, Bucket(t.byFamily, c.familyId), FamilyKey(c.familyId));
    DistinctCount(Bucket(t.byFamily, c.familyId));
  }

  /** In agreeing tables the two filtered queries agree: entity e's bucket filtered by family f and
      family f's bucket filtered by entity e hold the same components, each once, namely the live
      components of entity e and family f (ComponentSystem.h:498-503, 532-537). */
  lemma FiltersAgree(t: Tables, e: nat, f: nat)
    requires Coherent(t) && e < |t.byEntity|
    ensures forall c :: c in Select(t.byEntity[e], FamilyKey(f)) <==>
              IsLiveIn(t.storage, c) && c.entityId == e && c.familyId == f
    ensures multiset(Select(t.byEntity[e], FamilyKey(f))) == multiset(Select(Bucket(t.byFamily, f), EntityKey(e)))
  {
    var a := Select(t.byEntity[e], FamilyKey(f));
    var b := Select(Bucket(t.byFamily, f), EntityKey(e));
    assert BucketOk(t.storage, Bucket(t.byFamily, f), FamilyKey(f));
    SelectNoDup(t.byEntity[e], FamilyKey(f));
    SelectNoDup(Bucket(t.byFamily, f), EntityKey(e));
    forall c ensures c in a <==> IsLiveIn(t.storage, c) && c.entityId == e && c.familyId == f {
      if IsLiveIn(t.storage, c) {
        assert t.storage[c.uniqueId].comp == c;
      }
    }
    forall c ensures c in b <==> c in a {
      if IsLiveIn(t.storage, c) {
        assert t.storage[c.uniqueId].comp == c;
      }
    }
    SameMembersSameMultiset(a, b);
  }

  /** `mFamilyComponentMap[f]` used as an lvalue inserts an empty bucket when f is absent; that keeps
      the views in agreement. */
  lemma TouchFamilyKeepsCoherent(t: Tables, f: nat)
    requires Coherent(t)
    ensures Coherent(t.(byFamily := t.byFamily[f := Bucket(t.byFamily, f)]))
  {
    var bf' := t.byFamily[f := Bucket(t.byFamily, f)];
    assert forall g :: Bucket(bf', g) == Bucket(t.byFamily, g);
  }

  /** Growing the entity index with empty buckets keeps the views in agreement. */
  lemma GrowIndexKeepsCoherent(t: Tables, e: nat)
    requires Coherent(t)
    ensures Coherent(t.(byEntity := Grow(t.byEntity, e)))
  {
    var be' := Grow(t.byEntity, e);
    forall e' | 0 <= e' < |be'| ensures BucketOk(t.storage, be'[e'], EntityKey(e')) {
      if e' < |t.byEntity| {
        assert be'[e'] == t.byEntity[e'];
      }
    }
  }

  /** Copying or dropping a handle on a live component (the shared pointer's use count) changes only
      the slot's holder count, which no index looks at: the same components stay live and the views
      keep agreeing. */
  lemma HoldersKeepCoherent(t: Tables, u: nat, h: nat)
    requires u < |t.storage| && t.storage[u].Live?
    ensures forall x :: IsLiveIn(t.storage[u := Live(t.storage[u].comp, h)], x) <==> IsLiveIn(t.storage, x)
    ensures Basic(t) ==> Basic(t.(storage := t.storage[u := Live(t.storage[u].comp, h)]))
    ensures Coherent(t) ==> Coherent(t.(storage := t.storage[u := Live(t.storage[u].comp, h)]))
  {
    var st := t.storage;
    var st' := st[u := Live(st[u].comp, h)];
    forall i | 0 <= i < |st|
      ensures st'[i].Live? == st[i].Live? && (st[i].Live? ==> st'[i].comp == st[i].comp)
    {
    }
    forall x ensures IsLiveIn(st', x) <==> IsLiveIn(st, x) {
      if x.uniqueId < |st| {
        assert st'[x.uniqueId].Live? == st[x.uniqueId].Live?;
      }
    }
    if Coherent(t) {
      assert EntityIndexOk(st', t.byEntity) by {
        forall e | 0 <= e < |t.byEntity| ensures BucketOk(st', t.byEntity[e], EntityKey(e)) {
          KeepBucket(st, st', t.byEntity[e], EntityKey(e));
        }
      }
      assert FamilyIndexOk(st', t.byFamily) by {
        forall f | f in t.byFamily ensures BucketOk(st', t.byFamily[f], FamilyKey(f)) {
          KeepBucket(st, st', t.byFamily[f], FamilyKey(f));
        }
      }
    }
  }
}
