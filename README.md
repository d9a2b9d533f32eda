# Component registry model

This project models `ComponentSystem.h`, an entity–component registry written in C++. It covers two
classes.

`EntitySystem` allocates entity ids:
- a vector `mEntities` whose slot i holds i, with id 0 pushed by the constructor as the "invalid" id;
- a FIFO list `mErasedIds` of deleted ids waiting to be reissued.

`ComponentSystem` stores component records and keeps four views of them in sync:
- the flat storage `mComponentArray`, indexed by unique id, whose slot 0 is an empty dummy;
- its own FIFO list of recyclable unique ids;
- a per-entity index (a vector of buckets);
- a per-family index (a map from family id to bucket).

Components are plain records `Component(uniqueId, entityId, familyId)`. A C++ component type is
represented by the family id its constructor sets. A storage slot is `Empty` or
`Live(comp, holders)`. `holders` counts the handles to the record held outside the registry. For
a record `AttachComponent` files, the caller's handle counts as one from the start. Other handles
count once a client takes them (`Acquire`) and stop counting when it lets them go (`Drop`). For a
coherent record held by nobody else, `holders` is the `use_count() - 3` that `RefCount` reads
(ComponentSystem.h:435-445). The cases where the two differ are listed under "Left out".

The project is built in layers:

- `Lists.dfy`: the recycled-id list and the erase-first-match walk both classes run over it.
- `Records.dfy`: records, slots, buckets, and the scans over a bucket (find-first, filter-append,
  count, erase-by-id, and the skipping erase loop of `DeleteEntity`).
- `Entities.dfy`: the `EntitySystem` class, plus value-level functions and lemmas for its
  compaction and id claiming. The invariant `WellFormed` includes `mEntities[i] == i`, and every
  method keeps it.
- `Registry.dfy`: the four views as one value `Tables`, one function per operation computing the
  new tables, and the invariants:
  - `Basic`: the dummy slot is empty and id 0 is never recycled. Every operation keeps it.
  - `Coherent`: every live record sits in its own slot and appears exactly once in its entity
    bucket and once in its family bucket. Buckets hold only live records. Recycled ids are
    distinct and name empty slots.
  - Lemmas state which operations keep `Coherent`, and under which conditions.
- `Components.dfy`: the `ComponentSystem` class. Its methods change the four fields step by step,
  with the source's loops, and each ensures that the new state is the function from
  `Registry.dfy` applied to the old state. `InSync()` is `Coherent` of the current state.
- `Scenarios.dfy`: short client runs that fix behaviour the code has but its comments leave open.

Where the documented behaviour and the code disagree, the model follows the code:

- `CreateNewEntity` and `CreateComponent` reissue the oldest recycled id (the front of the list),
  not the smallest. `Scenarios.GapIdsReissuedOldestFirst` shows an id that is neither the
  smallest nor the next new one being reissued.
- Id 0 is live in a fresh allocator and is its top id, so `Delete(0)` succeeds and the next
  `CreateNewEntity` returns 0 (`Scenarios.ReservedIdCanBeReissued`).
- A second `Release` or an in-range `DeleteComponent` on an emptied slot does not fail cleanly.
  `RefCount` is 0 for an empty slot, and the code then dereferences a null pointer. The model makes
  a live slot a precondition (`ReleasableIn`, `DeletableIn`).
- `DeleteComponent` on an out-of-range id returns true and changes nothing.
- `AttachComponent` appends the record at the end of storage whatever its `mUniqueId`. The views
  stay coherent exactly when the id equals the old storage size (`Registry.AttachCoherentIff`).
- `DeleteComponent` can half-update: it removes the family alias and then fails on a missing
  entity alias. `ComponentDeleted` keeps that path. `Registry.DeleteComponentKeepsCoherent`
  shows it cannot be reached from coherent tables.
- The branch at ComponentSystem.h:113-114 cannot be taken: an id below the size that is not
  erased already exists. The model marks that branch unreachable.

## Model

| member | source | states |
|---|---|---|
| Lists.Range | ComponentSystem.h:116-119 | The gap ids size .. id - 1 pushed by the fill loop: the right length, and the k-th one is size + k (ascending) |
| Lists.RemoveFirst | ComponentSystem.h:93-101 | Erasing the first occurrence of x keeps only ids the list held, and shortens the list by one exactly when x was in it |
| Lists.IndexOf | ComponentSystem.h:93-101 | The position of the first occurrence of x: inside the list, holding x, with no x before it |
| Lists.RemoveFirstAt | ComponentSystem.h:93-101 | Erasing at the first occurrence of x cuts out exactly that position and keeps the order of the rest |
| Lists.RemoveFirstAbsent | ComponentSystem.h:93-101 | The erase walk leaves a list without x unchanged |
| Lists.RemoveFirstMembers | ComponentSystem.h:147-155 | On a list of distinct ids the erase removes x and nothing else, keeps the list distinct, and shortens it by one exactly when x was present |
| Lists.EraseFirst | ComponentSystem.h:147-155 | The iterator walk reports found exactly when x is in the list, and returns the list with its first x erased |
| Records.RemoveFirstUid | ComponentSystem.h:396-413 | Erasing the first record with a given id keeps only records the bucket held, and leaves a bucket without that id unchanged |
| Records.EraseSkipping | ComponentSystem.h:728-732 | The skipping erase loop never lengthens the bucket and keeps only records it held |
| Records.Select | ComponentSystem.h:498-537 | The filter never lengthens the bucket, and a record is in the result exactly when it is in the bucket and matches the key |
| Records.RemoveFirstUidMembers | ComponentSystem.h:396-413 | On a bucket without repeated ids, erasing the first match of uid removes exactly the record with that id, keeps ids distinct, and shortens the bucket by one exactly when uid was present |
| Records.EraseFirstUid | ComponentSystem.h:396-403 | The index loop with erase and break finds uid exactly when some record has it, and returns the bucket with the first such record erased |
| Records.EraseSkippingNoMatch | ComponentSystem.h:728-732 | Past the last match the skipping erase loop changes nothing |
| Records.EraseSkippingRemovesFirst | ComponentSystem.h:728-732 | The loop that erases and then still advances removes exactly the first match when the bucket has no repeated ids: the skipped element can never be a second match |
| Records.EraseSkippingLoop | ComponentSystem.h:728-732 | The in-place loop computes the skipping erase, and that is first-match removal on a bucket without repeated ids |
| Records.SelectNoDup | ComponentSystem.h:500-502 | Filtering a bucket keeps its ids distinct |
| Records.SameMembersSameMultiset | ComponentSystem.h:498-537 | Two filtered buckets with distinct ids and the same members hold the same multiset, whatever their order |
| Records.FindFirst | ComponentSystem.h:552-558 | The scan returns the first record of the bucket that matches the key, or none when none matches |
| Records.AppendMatching | ComponentSystem.h:498-503 | The filter loop appends to the caller's list the matching records in bucket order. The same loop serves the external-container overload, ComponentSystem.h:516-522 |
| Records.CountMatching | ComponentSystem.h:653-661 | The count loop returns the length of the list the filter loop appends |
| Entities.TrimErased | ComponentSystem.h:142-158 | Compaction never lengthens either list, and for every id it pops off the vector it takes exactly one id off the erased list |
| Entities.AfterDelete | ComponentSystem.h:132-163 | Deleting an id never lengthens the id vector and grows the erased list by at most the deleted id |
| Entities.TrimErasedPrefix | ComponentSystem.h:142-158 | Delete's compaction only cuts a tail off the id vector, and every id it cuts was in the erased list |
| Entities.TrimErasedList | ComponentSystem.h:142-158 | Compaction removes from the erased list exactly the ids it cuts, keeps the list without repetitions, and stops at a top id that is not erased |
| Entities.TrimErasedSpec | ComponentSystem.h:142-158 | Compaction restores the allocator invariant and changes no id's existence |
| Entities.DeleteSpec | ComponentSystem.h:132-163 | Deleting a live id keeps the invariant, makes that id not exist, leaves every other id's existence unchanged, and below the top only appends the id to the erased list |
| Entities.ClaimErasedSpec | ComponentSystem.h:93-99 | Claiming an erased id takes it out of the list, makes it exist, keeps the invariant (mEntities[id] already holds id) and touches no other id |
| Entities.FillGapSpec | ComponentSystem.h:116-122 | Claiming an id past the size materialises size .. id - 1 as erased, makes the id exist, keeps the invariant and touches no other id |
| Entities.ClaimId | ComponentSystem.h:83-126 | CreateNewEntityUnderId returns 0 or the requested id; on 0 nothing changes; the id vector never shrinks |
| Entities.ClaimIdPastSize | ComponentSystem.h:116-122 | Past the size, the claimed id is pushed after the gap ids |
| Entities.ClaimIdSpec | ComponentSystem.h:83-126 | CreateNewEntityUnderId returns 0 and changes nothing exactly for id 0 or an existing id; otherwise it returns id, which then exists, and no other id's existence changes |
| Entities.EntitySystem.constructor | ComponentSystem.h:56-60 | A fresh allocator holds only id 0, with nothing erased |
| Entities.EntitySystem.CreateNewEntity | ComponentSystem.h:66-80 | Pops and returns the front of the erased list if it is non-empty, else returns the old size and grows by one; the id then exists, nothing else changes, and the invariant holds |
| Entities.EntitySystem.CreateNewEntityUnderId | ComponentSystem.h:83-126 | The claim loop ends in the state and result ClaimId computes, keeping the invariant |
| Entities.EntitySystem.ClaimPastSize | ComponentSystem.h:116-122 | Claiming an id past the size ends in ClaimId's state, keeping the invariant |
| Entities.EntitySystem.FillGap | ComponentSystem.h:116-119 | The fill loop appends size .. id - 1 to both the id vector and the erased list |
| Entities.EntitySystem.Delete | ComponentSystem.h:132-163 | Returns whether the id existed; if not, nothing changes; if so, the compaction loop ends in AfterDelete's state, the id no longer exists, no other id's existence changes, and the invariant holds |
| Entities.EntitySystem.Exist | ComponentSystem.h:165-179 | The scan answers true exactly for an id below the size that is not in the erased list |
| Entities.EntitySystem.Clear | ComponentSystem.h:180-184 | Back to only id 0 with nothing erased |
| Registry.Grow | ComponentSystem.h:265-266 | Resizing the entity index to e + 1 keeps the existing buckets and adds empty ones |
| Registry.Resized | ComponentSystem.h:590-592 | Storage resized to n: truncated, or padded with empty slots |
| Registry.RefCountIn | ComponentSystem.h:435-445 | RefCount is positive only for an in-range live slot |
| Registry.Indexed | ComponentSystem.h:365-369 | Filing a record (the same filing as ComponentSystem.h:265-269 and 290-294) leaves storage and the recycled ids alone, grows the entity index to reach its entity, appends it to that bucket and to its family's bucket, and changes no other entity bucket or family |
| Registry.Installed | ComponentSystem.h:353-369 | The record is live in its own slot with no outside holders, storage is padded up to it when needed, the recycled ids are unchanged, and it is filed under its entity and its family |
| Registry.InstalledSlots | ComponentSystem.h:353-363 | Installing into an empty or past-the-end slot pads storage with empty slots, makes the record live in its own slot, keeps every other slot and every live record |
| Registry.FileEntity | ComponentSystem.h:365-368 | Filing a newly live record under its entity (growing the index) keeps the entity index in agreement with storage |
| Registry.FileFamily | ComponentSystem.h:369 | Filing a newly live record under its family keeps the family index in agreement with storage |
| Registry.InstallKeepsCoherent | ComponentSystem.h:349-375 | Installing into an empty slot whose id is not waiting for reuse keeps the four views coherent, and the record is live afterwards |
| Registry.Replaced | ComponentSystem.h:349-375 | Replace installs Component(u, e, f), live in slot u, when RefCount(u) is 0; otherwise nothing changes and the null dummy comes back; Basic is kept for u >= 1 |
| Registry.Created | ComponentSystem.h:251-279 | With no recycled id the record gets the old storage size as its id; otherwise the front recycled id is popped and Replace takes over; a returned record is live; Basic is kept |
| Registry.CreateKeepsCoherent | ComponentSystem.h:251-279 | In coherent tables CreateComponent always succeeds with the front recycled id or the old size, the record is live, and coherence is kept |
| Registry.Attached | ComponentSystem.h:286-296 | AttachComponent appends the record at the end of storage whatever its id, with the caller's handle as its one outside holder, and keeps Basic for ids >= 1 |
| Registry.AttachCoherentIff | ComponentSystem.h:286-296 | Attaching keeps coherent tables coherent exactly when the record's id equals the old storage size |
| Registry.AttachedAll | ComponentSystem.h:304-312 | AttachArray grows storage by the array's length and keeps Basic |
| Registry.AttachedAllStep | ComponentSystem.h:306-309 | Attaching a prefix one element longer is one more AttachComponent |
| Registry.AttachAllKeepsCoherent | ComponentSystem.h:304-312 | AttachArray keeps coherence when the records are numbered consecutively from the old storage size |
| Registry.DropFromBucket | ComponentSystem.h:396-413 | Erasing a record by id from a well-filed bucket keeps it well filed once its slot is vacated |
| Registry.UnfileEntity | ComponentSystem.h:395-403 | Taking a vacated record out of its entity bucket keeps the entity index in agreement with storage |
| Registry.UnfileFamily | ComponentSystem.h:405-413 | Taking a vacated record out of its family bucket keeps the family index in agreement with storage |
| Registry.Released | ComponentSystem.h:389-427 | Release succeeds exactly when RefCount is 0. On failure nothing changes. On success the slot is emptied but storage keeps its length, and the id joins the recycled list. Basic is kept |
| Registry.ReleaseKeepsCoherent | ComponentSystem.h:389-427 | In coherent tables every live slot is releasable, a release keeps coherence, and a released record is no longer live |
| Registry.ComponentDeleted | ComponentSystem.h:663-704 | An out-of-range id succeeds with no change. A success empties or pops the slot. Basic is kept |
| Registry.DeleteComponentKeepsCoherent | ComponentSystem.h:663-704 | In coherent tables deleting an out-of-range id or a live slot always succeeds (the half-updated failure paths cannot happen) and keeps coherence |
| Registry.VacateSlot | ComponentSystem.h:696-697 | Emptying a live slot keeps storage well formed and every other record live |
| Registry.PopSlot | ComponentSystem.h:698-699 | Popping the live last slot keeps storage and the recycled ids well formed and every other record live |
| Registry.RecycleId | ComponentSystem.h:700-702 | Emptying a live slot and recycling its id keeps the recycled ids distinct and naming empty slots |
| Registry.ClearSlots | ComponentSystem.h:740-742 | The reset loop empties the slot of every listed record and no other |
| Registry.PurgeOne | ComponentSystem.h:721-736 | One pass of the family loop touches only the record's own family: every other family keeps its bucket, and no family is added |
| Registry.PurgeFamilies | ComponentSystem.h:721-736 | The family loop adds no family, and a family none of the listed records belongs to keeps its bucket |
| Registry.PurgeOneSpec | ComponentSystem.h:725-736 | One pass of the family loop removes exactly that record from the family index, keeps buckets well filed, and only drops a bucket it has emptied |
| Registry.PurgeFamiliesSpec | ComponentSystem.h:721-736 | The whole family loop removes exactly the entity's records from the family index and drops only the buckets it empties |
| Registry.CompactTail | ComponentSystem.h:745-757 | Compaction keeps a prefix of storage, pops only empty slots, stops at a live last slot, and only removes recycled ids |
| Registry.CompactTailErased | ComponentSystem.h:745-757 | Compaction removes from the recycled list exactly the ids of the popped slots and keeps it distinct |
| Registry.EntityDeleted | ComponentSystem.h:713-763 | The component side of DeleteEntity never lengthens storage, empties the entity's bucket, leaves every other entity bucket unchanged, and adds no family |
| Registry.EntityDeletedKeepsBasic | ComponentSystem.h:713-763 | The component cascade of DeleteEntity keeps the dummy slot and keeps id 0 out of the recycled list |
| Registry.EntityMembers | ComponentSystem.h:718-719 | In coherent tables a live record's id is in entity e's bucket exactly when the record belongs to e |
| Registry.DeletedErasedDistinct | ComponentSystem.h:721-724 | Appending the entity's ids to the recycled list keeps it distinct |
| Registry.ClearThenCompact | ComponentSystem.h:740-757 | After resetting the listed slots and compacting, a record is live exactly when it was live and not listed, and storage ends in a live slot |
| Registry.DeletedSlots | ComponentSystem.h:740-757 | After DeleteEntity a record is live exactly when it was live and its id was not the entity's, and storage ends in a live slot |
| Registry.DeletedLiveness | ComponentSystem.h:713-763 | After DeleteEntity a record is live exactly when it was live and belongs to another entity |
| Registry.DeletedEntityIndex | ComponentSystem.h:738-739 | After DeleteEntity the entity index agrees with storage |
| Registry.ClearedEntityIndex | ComponentSystem.h:738-739 | Clearing the entity's bucket leaves an index that agrees with the storage left after the cascade |
| Registry.DeletedFamilyIndex | ComponentSystem.h:721-736 | After DeleteEntity the family index agrees with storage, holds none of the entity's records, and has lost only buckets the deletion emptied |
| Registry.PurgedFamilyIndex | ComponentSystem.h:721-736 | Purging the entity's records from a well-filed family index leaves one that agrees with the storage left after the cascade |
| Registry.DeletedErased | ComponentSystem.h:721-757 | After DeleteEntity the recycled ids are distinct and name empty slots |
| Registry.CompactedErasedOk | ComponentSystem.h:745-757 | Recycled ids naming slots that are empty or about to be emptied all name empty slots after compaction |
| Registry.EntityDeletedKeepsCoherent | ComponentSystem.h:713-763 | DeleteEntity keeps coherence and cascades. The entity's bucket is empty. No family bucket holds its records. Emptied family buckets are gone from the map. Exactly its records stop being live, and storage ends in a live slot |
| Registry.EmptyIds | ComponentSystem.h:618-625 | The rebuilt list holds exactly the ids from 1 below the size whose slots are empty |
| Registry.EmptyIdsAscending | ComponentSystem.h:618-625 | The rebuilt list is strictly ascending, hence without repetitions |
| Registry.RebuildRestoresCoherent | ComponentSystem.h:618-625 | Rebuilding the recycled list makes tables coherent whenever storage and both indexes agree, whatever the old list was |
| Registry.GrowKeepsCoherent | ComponentSystem.h:590-592 | Growing storage with empty slots keeps coherence |
| Registry.ErasedBound | ComponentSystem.h:640-642 | In coherent tables the recycled list is shorter than storage |
| Registry.FiledOnce | ComponentSystem.h:196-204 | In coherent tables a live record occurs exactly once in its entity bucket and exactly once in its family bucket |
| Registry.FiltersAgree | ComponentSystem.h:498-537 | In coherent tables both entity-and-family filters select exactly the live records of that entity and family, and select the same multiset |
| Registry.TouchFamilyKeepsCoherent | ComponentSystem.h:486-489 | The empty bucket operator[] inserts for a missing family keeps coherence |
| Registry.GrowIndexKeepsCoherent | ComponentSystem.h:472-475 | Growing the entity index with empty buckets keeps coherence |
| Registry.HoldersKeepCoherent | ComponentSystem.h:435-445 | Changing a live slot's outside-holder count changes no record's liveness and keeps Basic and coherence |
| Components.ComponentSystem.constructor | ComponentSystem.h:211-216 | A fresh registry holds only the empty dummy slot and empty indexes, is coherent, and owns a fresh allocator holding id 0 |
| Components.ComponentSystem.Index | ComponentSystem.h:265-269 | Files the record under its entity (growing the index) and under its family |
| Components.ComponentSystem.CreateNewEntityUnderId | ComponentSystem.h:236-239 | Forwards to the allocator and ends in ClaimId's state and result |
| Components.ComponentSystem.CreateComponent | ComponentSystem.h:251-279 | Ends in Created's state and result; from a coherent state it stays coherent and always returns a record |
| Components.ComponentSystem.AttachComponent | ComponentSystem.h:286-296 | Always returns true and ends in Attached's state: the record appended with the caller's handle counted as one holder; coherence is kept exactly when the id equals the old storage size |
| Components.ComponentSystem.AttachArray | ComponentSystem.h:304-312 | The loop ends in AttachedAll's state and returns true; coherence is kept for consecutive ids |
| Components.ComponentSystem.Replace | ComponentSystem.h:349-375 | Ends in Replaced's state and result; coherence is kept when the slot is empty or past the end and the id is not waiting for reuse |
| Components.ComponentSystem.Release | ComponentSystem.h:389-427 | The two erase loops end in Released's state and result; coherence is kept |
| Components.ComponentSystem.RefCount | ComponentSystem.h:435-445 | Positive only for an in-range live slot; 0 for an out-of-range id or an empty slot |
| Components.ComponentSystem.Acquire | ComponentSystem.h:442 | An outside handle taken: RefCount goes up by one, nothing else changes, coherence is kept |
| Components.ComponentSystem.Drop | ComponentSystem.h:442 | An outside handle dropped: RefCount goes down by one, nothing else changes, coherence is kept |
| Components.ComponentSystem.GetComponent | ComponentSystem.h:453-459 | A record exactly for an in-range live slot; the null dummy for an empty slot or an out-of-range id; in a coherent state the record's id is the one asked for |
| Components.ComponentSystem.GetComponentsByEntity | ComponentSystem.h:467-470 | In a coherent state the bucket holds exactly the live records of that entity, each once |
| Components.ComponentSystem.AppendComponentsByEntity | ComponentSystem.h:472-478 | Grows the entity index if needed and appends the entity's bucket to the caller's list; coherence is kept |
| Components.ComponentSystem.GetComponentsByFamily | ComponentSystem.h:486-489 | Inserts an empty bucket for a missing family and returns the bucket; in a coherent state it holds exactly the live records of that family, each once |
| Components.ComponentSystem.GetComponentsByEntityAndFamily | ComponentSystem.h:498-503 | Appends the entity bucket's records of that family in order; in a coherent state exactly the live records of both |
| Components.ComponentSystem.GetComponentsByFamilyAndEntity | ComponentSystem.h:532-537 | Appends the family bucket's records of that entity in order; in a coherent state the same multiset as the other filter |
| Components.ComponentSystem.FindFirstComponentByEntityAndFamily | ComponentSystem.h:548-562 | The first family match in the entity bucket, or the null dummy for an out-of-range entity or no match; a live record of that entity and family in a coherent state |
| Components.ComponentSystem.FindFirstComponentByFamily | ComponentSystem.h:564-571 | The head of the family bucket, or the null dummy when it is empty; a live record of that family in a coherent state |
| Components.ComponentSystem.CountComponentsByEntityAndFamily | ComponentSystem.h:653-661 | The length of the list the entity-and-family filter appends; in a coherent state equal to the family-side count |
| Components.ComponentSystem.DeleteComponent | ComponentSystem.h:663-704 | The two erase loops end in ComponentDeleted's state and result; from a coherent state it always succeeds and stays coherent |
| Components.ComponentSystem.DeleteEntity | ComponentSystem.h:713-763 | Returns whether the entity existed. If not, nothing changes. If so, the allocator ends in AfterDelete's state and the registry in EntityDeleted's. The entity no longer exists, and coherence is kept |
| Components.ComponentSystem.PurgeFamiliesOf | ComponentSystem.h:721-736 | The record loop appends each record's id to the recycled list and purges it from the family index |
| Components.ComponentSystem.PurgeOneFamily | ComponentSystem.h:725-736 | One record erased from its family bucket, and the bucket dropped from the map if it became empty |
| Components.ComponentSystem.ResetSlots | ComponentSystem.h:740-742 | The reset loop ends in ClearSlots' storage and changes nothing else |
| Components.ComponentSystem.CompactStorage | ComponentSystem.h:745-757 | The compaction loop ends in CompactTail's storage and recycled list |
| Components.ComponentSystem.Clear | ComponentSystem.h:577-588 | Back to the constructor's state, with the allocator cleared too; coherent |
| Components.ComponentSystem.Resize | ComponentSystem.h:590-592 | Storage truncated or padded with empty slots; coherence is kept when growing |
| Components.ComponentSystem.RebuildErasedIDs | ComponentSystem.h:618-625 | The loop replaces the recycled list with the ascending empty-slot ids from 1, and changes nothing else |
| Components.ComponentSystem.ErasedIDSize | ComponentSystem.h:640-642 | In a coherent state fewer ids are recycled than storage has slots |
| Scenarios.GapIdsReissuedOldestFirst | ComponentSystem.h:66-126 | After claiming 5 in a fresh allocator, the next new entity is 1, the oldest gap id |
| Scenarios.ReservedIdCanBeReissued | ComponentSystem.h:132-139 | Delete(0) succeeds on a fresh allocator and the next new entity is 0 |
| Scenarios.HoldersGateRelease | ComponentSystem.h:389-445 | Release fails while an outside handle is held and succeeds once it is dropped |
| Scenarios.RecycledBeforeGrowth | ComponentSystem.h:251-279 | Deleting a component below the top recycles its id, and the next CreateComponent reuses it |
| Scenarios.TopSlotPopped | ComponentSystem.h:696-702 | Deleting the component in the top slot pops it instead of recycling its id |
| Scenarios.CascadeBefore | ComponentSystem.h:251-279 | The tables three CreateComponent calls build satisfy Basic |
| Scenarios.CascadeCreate1 | ComponentSystem.h:263-269 | The first CreateComponent appends the record and grows the entity index to reach its entity |
| Scenarios.CascadeCreate2 | ComponentSystem.h:263-269 | A record for a new entity grows the entity index again and joins its family behind the first |
| Scenarios.CascadeCreate3 | ComponentSystem.h:263-269 | A record for an existing entity joins that entity's bucket and opens a new family |
| Scenarios.CascadeSlots | ComponentSystem.h:740-757 | Resetting the entity's slots and compacting pops the emptied top slot and takes its id back off the recycled list, while a lower emptied id stays recycled |
| Scenarios.CascadeFamilies | ComponentSystem.h:721-736 | Purging the entity's records drops one from a shared family bucket and drops a family left empty |
| Scenarios.CascadeRegistry | ComponentSystem.h:236-279 | Two entities and three components created in a fresh registry give coherent tables with entity 1 existing |
| Scenarios.EntityCascade | ComponentSystem.h:713-763 | Deleting entity 1 empties both its slots, pops the top one, recycles only the lower id, and leaves only entity 2's record in the family index |

`Size`, `EntitySize` and `EntitySystem.Size` (ComponentSystem.h:127-130, 632-638) are plain reads of
a length and carry no contract of their own.

## Left out

- `Dump`, `DumpEntity`, `DumpComponent` (ComponentSystem.h:789-849): console output only.
- `smart_cast`, `safe_cast`, `Get<Type>` (ComponentSystem.h:36-45, 604-612): unchecked C++ downcasts.
  The lookup inside `Get` is `FindFirstComponentByEntityAndFamily`.
- `DuplicateComponent` (ComponentSystem.h:765-784): it copies an opaque payload through the
  subclass's copy assignment.
- Destructors, and the payload and memory of component objects. A C++ component type is only the
  family id its constructor sets.
- Shared-pointer ownership. `use_count() - 3` is an explicit `holders` count per slot. It starts
  at 1 for an attached record (the caller's `ComponentPtr&`) and at 0 otherwise, and only
  `Acquire` and `Drop` change it. The following differences from the code remain:
  - Handles the registry hands out (the results of `CreateComponent`, `Replace` and the queries)
    are not counted until the caller acquires them.
  - The same pointer attached twice gets two slots, each with its own count. In the code both
    slots share one `use_count()`.
  - `RefCount` assumes every live record has both its bucket aliases. After `DeleteComponent`'s
    half-update (ComponentSystem.h:675, 694-695) a live record lacks one. `use_count() - 3` then
    wraps around in `size_t` (ComponentSystem.h:442), and the code refuses `Release`. The model
    keeps `holders` and allows it.
  - One record shared between two registries is not modelled.
- Integer widths: ids and sizes are unbounded, and the `(cid_t)` and `(entity_t)` casts are not
  modelled.
- Concurrency: the code is single-threaded and so is the model.
- Components.ComponentSystem.Release: requires a live slot. With an empty or out-of-range slot the
  code dereferences a null pointer, so failing with false is not modelled. It also requires the
  record's entity to be inside the entity index, which coherence guarantees.
- Components.ComponentSystem.DeleteComponent: requires an in-range slot to be live (the code reads
  it unchecked), and requires the entity index read after the family erase to be in range.
- Components.ComponentSystem.DeleteEntity: requires the entity's bucket to be in range and its
  records' ids to be inside storage. It also requires some other live slot to survive. Otherwise
  the compaction loop pops the dummy and calls `pop_back` on an empty vector.
- Components.ComponentSystem.GetComponentsByEntity: requires an entity inside the entity index
  (the code indexes it unchecked). The same holds for GetComponentsByEntityAndFamily and
  CountComponentsByEntityAndFamily.
- Components.ComponentSystem.Replace: requires u >= 1. The code would put a record in the dummy
  slot 0, which every query relies on staying empty.
- Components.ComponentSystem.AttachComponent: requires a unique id >= 1, so no bucket ever files
  id 0. This excludes default-constructed records: `Component()` sets `mUniqueId` to 0
  (ComponentSystem.h:21), and `AttachComponent` never assigns it. AttachArray requires the same
  of every record.
- Components.ComponentSystem.Resize: requires n >= 1. `Resize(0)` would drop the dummy slot.
- Components.ComponentSystem.RebuildErasedIDs: states only the new list, not coherence. That the
  rebuilt list makes the tables coherent is `Registry.RebuildRestoresCoherent`.
- Components.ComponentSystem.AttachComponent: coherence is stated only for an id equal to the old
  storage size. Other ids break it, as the code allows.
