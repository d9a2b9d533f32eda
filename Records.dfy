/** Component records and the buckets that index them: the `Component` base struct
    (ComponentSystem.h:20-25), a storage slot holding a shared pointer to one, and the
    scans over a bucket (`component_vector`) that the registry runs. */
module Records {
  import opened Lists

  /** The identity fields of every component; the payload of a concrete component type is opaque
      here, and a C++ component type is represented by the family id its constructor sets. */
  datatype Component = Component(uniqueId: nat, entityId: nat, familyId: nat)

  /** A slot of `mComponentArray`: an empty shared pointer, or a live component together with the
      number of handles held on it outside the registry (`use_count() - 3`, ComponentSystem.h:442). */
  datatype Slot = Empty | Live(comp: Component, holders: nat)

  /** What a slot hands out: the component, or the null pointer. */
  function View(s: Slot): Option<Component> {
    if s.Live? then Some(s.comp) else None
  }

  /** The unique ids of a bucket, position by position. */
  function Uids(s: seq<Component>): (r: seq<nat>)
    ensures |r| == |s|
    ensures forall k :: 0 <= k < |s| ==> r[k] == s[k].uniqueId
  {
    seq(|s|, k requires 0 <= k < |s| => s[k].uniqueId)
  }

  /** A component in a bucket contributes its id to the bucket's ids. */
  lemma InUids(s: seq<Component>, c: Component)
    requires c in s
    ensures c.uniqueId in Uids(s)
  {
    var k :| 0 <= k < |s| && s[k] == c;
    assert Uids(s)[k] == c.uniqueId;
  }

  /** No unique id occurs twice in the bucket. */
  predicate NoDupUids(s: seq<Component>) {
    forall i, j :: 0 <= i < j < |s| ==> s[i].uniqueId != s[j].uniqueId
  }

  /** The first component with unique id uid is cut out of the bucket (`erase` at the first match,
      then `break`); the bucket is unchanged when no component has that id. */
  function RemoveFirstUid(s: seq<Component>, uid: nat): (r: seq<Component>)
    ensures forall c :: c in r ==> c in s
    ensures uid !in Uids(s) ==> r == s
  {
    if uid in Uids(s) then
      var i := IndexOf(Uids(s), uid);
      s[..i] + s[i + 1..]
    else
      s
  }

  /** In a bucket without repeated ids, RemoveFirstUid removes exactly the component with that id. */
  lemma RemoveFirstUidMembers(s: seq<Component>, uid: nat)
    requires NoDupUids(s)
    ensures NoDupUids(RemoveFirstUid(s, uid))
    ensures forall c :: c in RemoveFirstUid(s, uid) <==> c in s && c.uniqueId != uid
    ensures |RemoveFirstUid(s, uid)| == if uid in Uids(s) then |s| - 1 else |s|
  {
    if uid in Uids(s) {
      var i := IndexOf(Uids(s), uid);
      var r := s[..i] + s[i + 1..];
      assert forall k :: 0 <= k < |r| ==> r[k] == s[if k < i then k else k + 1];
      forall c | c in s && c.uniqueId != uid ensures c in r {
        var k :| 0 <= k < |s| && s[k] == c;
        assert r[if k < i then k else k - 1] == c;
      }
    } else {
      forall c | c in s ensures c.uniqueId != uid {
        var k :| 0 <= k < |s| && s[k] == c;
        assert Uids(s)[k] == c.uniqueId;
      }
    }
  }

  /** The index loop that looks for the first component with unique id uid and erases it
      (ComponentSystem.h:396-403, 406-413, 672-679, 686-692). */
  method EraseFirstUid(s: seq<Component>, uid: nat) returns (r: seq<Component>, found: bool)
    ensures found <==> uid in Uids(s)
    ensures r == RemoveFirstUid(s, uid)
  {
    var i := 0;
    while i < |s|
      invariant 0 <= i <= |s|
      invariant forall k :: 0 <= k < i ==> s[k].uniqueId != uid
    {
      if s[i].uniqueId == uid {
        assert uid !in Uids(s)[..i];
        IndexOfUnique(Uids(s), uid, i);
        return s[..i] + s[i + 1..], true;
      }
      i := i + 1;
    }
    assert uid !in Uids(s);
    return s, false;
  }

  /** The erase loop of DeleteEntity (ComponentSystem.h:728-732) from index i on: it erases every
      match it inspects, but advances past the element that slides into the erased position. */
  function EraseSkipping(t: seq<Component>, i: nat, uid: nat): (r: seq<Component>)
    ensures |r| <= |t|
    ensures forall c :: c in r ==> c in t
    decreases |t| - i
  {
    if i >= |t| then t
    else if t[i].uniqueId == uid then EraseSkipping(t[..i] + t[i + 1..], i + 1, uid)
    else EraseSkipping(t, i + 1, uid)
  }

  /** Past the last match the skipping loop changes nothing. */
  lemma {:induction false} EraseSkippingNoMatch(t: seq<Component>, i: nat, uid: nat)
    requires forall k :: i <= k < |t| ==> t[k].uniqueId != uid
    ensures EraseSkipping(t, i, uid) == t
    decreases |t| - i
  {
    if i < |t| {
      EraseSkippingNoMatch(t, i + 1, uid);
    }
  }

  /** When the bucket holds each unique id at most once, the element skipped after an erase can never
      be another match, so the skipping loop removes exactly the first (and only) match. */
  lemma {:induction false} EraseSkippingRemovesFirst(t: seq<Component>, i: nat, uid: nat)
    requires NoDupUids(t) && i <= |t|
    requires forall k :: 0 <= k < i ==> t[k].uniqueId != uid
    ensures EraseSkipping(t, i, uid) == RemoveFirstUid(t, uid)
    decreases |t| - i
  {
    if i == |t| {
      assert uid !in Uids(t);
    } else if t[i].uniqueId == uid {
      var t' := t[..i] + t[i + 1..];
      assert forall k :: 0 <= k < |t'| ==> t'[k] == t[if k < i then k else k + 1];
      EraseSkippingNoMatch(t', i + 1, uid);
      assert uid !in Uids(t)[..i];
      IndexOfUnique(Uids(t), uid, i);
    } else {
      EraseSkippingRemovesFirst(t, i + 1, uid);
    }
  }

  /** The erase loop of DeleteEntity (ComponentSystem.h:728-732), on one family bucket. */
  method EraseSkippingLoop(s: seq<Component>, uid: nat) returns (r: seq<Component>)
    ensures r == EraseSkipping(s, 0, uid)
    ensures NoDupUids(s) ==> r == RemoveFirstUid(s, uid)
  {
    r := s;
    var i := 0;
    while i < |r|
      invariant EraseSkipping(r, i, uid) == EraseSkipping(s, 0, uid)
      decreases |r| - i
    {
      if r[i].uniqueId == uid {
        r := r[..i] + r[i + 1..];
      }
      i := i + 1;
    }
    if NoDupUids(s) {
      EraseSkippingRemovesFirst(s, 0, uid);
    }
  }

  /** The attribute a query selects components by. */
  datatype Key = EntityKey(entity: nat) | FamilyKey(family: nat)

  predicate Matches(c: Component, k: Key) {
    match k
    case EntityKey(e) => c.entityId == e
    case FamilyKey(f) => c.familyId == f
  }

  /** The components of s that match k, in bucket order. */
  function Select(s: seq<Component>, k: Key): (r: seq<Component>)
    ensures |r| <= |s|
    ensures forall c :: c in r <==> c in s && Matches(c, k)
  {
    if s == [] then []
    else
      assert s == s[..|s| - 1] + [s[|s| - 1]];
      Select(s[..|s| - 1], k) + (if Matches(s[|s| - 1], k) then [s[|s| - 1]] else [])
  }

  /** Selecting from a concatenation selects from each part. */
  lemma {:induction false} SelectAppend(a: seq<Component>, b: seq<Component>, k: Key)
    ensures Select(a + b, k) == Select(a, k) + Select(b, k)
    decreases |b|
  {
    if b != [] {
      var b' := b[..|b| - 1];
      assert (a + b)[..|a + b| - 1] == a + b';
      SelectAppend(a, b', k);
    } else {
      assert a + b == a;
    }
  }

  /** Selecting keeps a bucket free of repeated ids. */
  lemma {:induction false} SelectNoDup(s: seq<Component>, k: Key)
    requires NoDupUids(s)
    ensures NoDupUids(Select(s, k))
    decreases |s|
  {
    if s != [] {
      var s' := s[..|s| - 1];
      var last := s[|s| - 1];
      SelectNoDup(s', k);
      var r := Select(s, k);
      forall i, j | 0 <= i < j < |r| ensures r[i].uniqueId != r[j].uniqueId {
        if j == |r| - 1 && Matches(last, k) {
          assert r[i] in Select(s', k);
          var m :| 0 <= m < |s'| && s'[m] == r[i];
          assert s[m] == r[i];
        }
      }
    }
  }

  /** In a bucket without repeated ids every component occurs at most once. */
  lemma {:induction false} DistinctCount(s: seq<Component>)
    requires NoDupUids(s)
    ensures forall c :: multiset(s)[c] == if c in s then 1 else 0
    decreases |s|
  {
    if s != [] {
      var s' := s[..|s| - 1];
      var last := s[|s| - 1];
      assert s == s' + [last];
      DistinctCount(s');
      assert last !in s' by {
        forall m | 0 <= m < |s'| ensures s'[m] != last {
          assert s[m].uniqueId != s[|s| - 1].uniqueId;
        }
      }
    }
  }

  /** Two buckets without repeated ids that hold the same components hold them the same number of
      times, whatever their order. */
  lemma SameMembersSameMultiset(a: seq<Component>, b: seq<Component>)
    requires NoDupUids(a) && NoDupUids(b)
    requires forall c :: c in a <==> c in b
    ensures multiset(a) == multiset(b)
  {
    DistinctCount(a);
    DistinctCount(b);
    assert forall c :: multiset(a)[c] == multiset(b)[c];
  }

  /** When nothing before position i matches and s[i] does, s[i] heads the selection. */
  lemma SelectFirstAt(s: seq<Component>, i: nat, k: Key)
    requires i < |s| && Select(s[..i], k) == [] && Matches(s[i], k)
    ensures Select(s, k) != [] && Select(s, k)[0] == s[i]
  {
    assert s == s[..i] + ([s[i]] + s[i + 1..]);
    SelectAppend(s[..i], [s[i]] + s[i + 1..], k);
    SelectAppend([s[i]], s[i + 1..], k);
    assert [s[i]][..0] == [];
  }

  /** The first component of the bucket that matches k, if any (ComponentSystem.h:552-558). */
  method FindFirst(s: seq<Component>, k: Key) returns (r: Option<Component>)
    ensures r == if Select(s, k) == [] then None else Some(Select(s, k)[0])
  {
    var i := 0;
    while i < |s|
      invariant 0 <= i <= |s|
      invariant Select(s[..i], k) == []
    {
      if Matches(s[i], k) {
        SelectFirstAt(s, i, k);
        return Some(s[i]);
      }
      assert s[..i + 1] == s[..i] + [s[i]];
      SelectAppend(s[..i], [s[i]], k);
      i := i + 1;
    }
    assert s[..i] == s;
    return None;
  }

  /** Appends to list the components of the bucket that match k, in bucket order
      (ComponentSystem.h:500-502, 519-521, 534-536). */
  method AppendMatching(s: seq<Component>, k: Key, list: seq<Component>) returns (r: seq<Component>)
    ensures r == list + Select(s, k)
  {
    r := list;
    var i := 0;
    while i < |s|
      invariant 0 <= i <= |s|
      invariant r == list + Select(s[..i], k)
    {
      assert s[..i + 1][..i] == s[..i];
      assert Select(s[..i + 1], k) == Select(s[..i], k) + if Matches(s[i], k) then [s[i]] else [];
      if Matches(s[i], k) {
        r := r + [s[i]];
      }
      i := i + 1;
    }
    assert s[..i] == s;
  }

  /** Counts the components of the bucket that match k (ComponentSystem.h:655-660). */
  method CountMatching(s: seq<Component>, k: Key) returns (n: nat)
    ensures n == |Select(s, k)|
  {
    n := 0;
    var i := 0;
    while i < |s|
      invariant 0 <= i <= |s|
      invariant n == |Select(s[..i], k)|
    {
      assert s[..i + 1][..i] == s[..i];
      if Matches(s[i], k) {
        n := n + 1;
      }
      i := i + 1;
    }
    assert s[..i] == s;
  }
}
