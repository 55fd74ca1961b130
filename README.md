# HashMap: an insertion-ordered, open-addressed hash map

This project models the class template `HashMap<KeyType, ValueType, Hash>` of
`hash_map.h` and proves properties of it in Dafny. The container has three
parts:

- a `std::list` of key/value records, kept in insertion order;
- an index of `N` slots, made of two arrays:
  - `deleted` gives each slot a state: 0 EMPTY, 1 TOMBSTONE, 2 OCCUPIED;
  - `table` holds, for each OCCUPIED slot, an iterator into the list;
- `table_size`, the live count.

Lookups probe linearly from the home slot `hash(k) % N`. `insert` claims
the first EMPTY or TOMBSTONE slot and appends the record. `erase` turns the
record's slot into a TOMBSTONE. After each insert that claims a slot,
`check()` may double or halve `N`. `reallocate` rebuilds the index from the list.

The model has three modules:

- `RecordList` (record_list.dfy) is the list. A node is named by a record
  id that is never reused, so iterators and references are ids. The list
  is the id sequence `order` plus the map `store` from id to record.
  `Without` is `l.erase`. `Dedup` is the outcome of inserting a sequence
  into a fresh table.
- `HashIndex` (hash_index.dfy) holds the index as values:
  - a `Table` snapshot and the probe positions `Pos(h, i, N) = (h + i) % N`;
  - the lookup and placement probes, `LookupFrom` and `PlaceFrom`;
  - the index invariant `IndexValid`, the transitions `Inserted` and
    `Erased`, and the lemmas about them.
- `HashMaps` (hash_map.dfy) holds class `HashMap`. Its fields follow
  the C++ class: `N`, `tableSize`, the arrays `deleted: array<int>` and
  `table: array<nat>`, and the list as `order`/`store`. The counter `nextId`
  that hands out record ids has no C++ counterpart. Each method works
  in place on those fields, with the loops of the source. Each method is
  proved against the snapshot functions of `HashIndex` through
  `Model()`. The class invariant `Valid()` says three things:
  - the index is consistent with the list;
  - every record sits on its probe sequence, with no EMPTY slot before it;
  - `table_size` equals the list length.

The ghost map `steps` records the probe step at which each record sits. It
is proof bookkeeping and has no counterpart in the source.

The source has three quirks, and the model keeps them:

- `insert` claims a TOMBSTONE before it has looked further along the chain.
  A key behind a TOMBSTONE can therefore be inserted twice
  (`TombstoneAdmitsDuplicate`).
- `check()` runs before `++table_size`, so it sees the count before the
  insert (`Check(count)`, `PreIncrementBound`).
- When `operator[]` makes N probes with neither a hit nor an EMPTY slot, it
  returns the last record of the list (`Subscript`, case `Exhausted`).

Four behaviours of the code differ from what a reader of the interface
might expect. The model keeps what the code does:

- Load bound. One might expect `2 * size <= N` after every insert. Because
  `check()` sees the pre-increment count, the code keeps only
  `2 * size <= N + 2` (`Policy`, `CapacityPolicy`, `PreIncrementBound`).
- Duplicate keys. One might expect no two OCCUPIED slots to hold the same
  key. The code admits a duplicate behind a TOMBSTONE, as above
  (`TombstoneAdmitsDuplicate`, `TombstoneDuplicateWitness`). One might also
  expect erase to be idempotent. With such a duplicate it is not: one erase
  removes only the record the lookup reaches first, and a second erase
  removes the other (`EraseRemovesOneDuplicate`, `DuplicateEraseWitness`).
- Copy capacity. One might expect a copy to have the other map's capacity
  verbatim. The copy constructor starts at `other.N`, but its re-inserts
  run `check()`, which can shrink or grow `N`. `Copy` promises
  `N == other.N` only while no re-insert triggers a resize. A copy also
  keeps only the first record of each key (`Dedup`).
- clear(). `clear()` does not reset every slot: it walks from each
  record's home slot and zeroes slots until it meets an EMPTY one. Such a
  walk always reaches its record's own slot, so no OCCUPIED slot survives
  (`WalkCovers`, `ClearComplete`). What the walks zero is exactly the
  union of the runs of non-EMPTY slots that start at the records' home
  slots. TOMBSTONEs in those runs become EMPTY, and every slot outside them,
  TOMBSTONEs included, keeps its state (`Clear`, `SweepStep`).

## Model

| member | source | states |
|---|---|---|
| RecordList.KeyInRecords | hash_map.h:12 | A key occurs among the iterated records exactly when some live record has it. |
| RecordList.StoreAppend | hash_map.h:113 | `push_back` under an unused id keeps the list well formed and appends exactly that record at the end. |
| RecordList.Without | hash_map.h:128 | `l.erase(it)`: exactly that node leaves and every other node stays. Distinct ids stay distinct, the length drops by one, and an absent node changes nothing. |
| RecordList.WithoutKeepsOrder | hash_map.h:128 | The nodes that stay keep their order: the list is cut at the erased node and rejoined. |
| RecordList.Dedup | hash_map.h:28-53 | Inserting a sequence into a fresh table keeps each key once, with every key of the input, and no more records than the input. |
| RecordList.DedupFirstWins | hash_map.h:118-119 | First write wins: the record kept for a key is its first occurrence in the input. |
| HashIndex.StepTo | hash_map.h:109-110 | Every slot lies on every probe sequence within N steps. |
| HashIndex.PosInjective | hash_map.h:109-110 | Within one round of N probes, different steps visit different slots. |
| HashIndex.PosNext | hash_map.h:147 | `index = (index + 1) % N` walks the same probe sequence as `(hash + i) % N`. |
| HashIndex.PosWrap | hash_map.h:141 | The home slot `hash % N` is probe step 0, and step N returns to it. |
| HashIndex.FullProbe | hash_map.h:89-96 | A probe sequence that meets only OCCUPIED slots for N steps has seen a completely full table. |
| HashIndex.FreeSlotAhead | hash_map.h:89-96 | While fewer than N slots are OCCUPIED, the unbounded placement loop of reallocate finds a free slot within N steps. |
| HashIndex.ListFits | hash_map.h:12-16 | Under the index invariant the list has at most N records. |
| HashIndex.EmptyTable | hash_map.h:22-26 | A table of EMPTY slots is a consistent index of the empty list. |
| HashIndex.LookupFrom | hash_map.h:154-165 | The lookup probe: a hit is an OCCUPIED slot with the key; a miss is an EMPTY slot; every slot passed before either is neither. |
| HashIndex.FindHandle | hash_map.h:154-165 | A handle that `find` returns names a live record with the key. |
| HashIndex.LookupReaches | hash_map.h:154-165 | The lookup for a live record's key ends in a hit at or before that record's step; it cannot miss or run out first. The hit may be an earlier record with the same key. |
| HashIndex.FindCorrect | hash_map.h:154-165 | `find(k)` returns `end()` exactly when no live record has key k. |
| HashIndex.FindUnique | hash_map.h:154-165 | When exactly one live record has key k, `find(k)` returns it. |
| HashIndex.PlaceFrom | hash_map.h:108-120 | The insert probe: it claims the first EMPTY or TOMBSTONE slot, or stops at an OCCUPIED slot with the key met before that; every slot passed is OCCUPIED by another key. |
| HashIndex.PresentHasKey | hash_map.h:118-119 | insert declines only for a key some live record has. |
| HashIndex.PlaceNeverNoRoom | hash_map.h:109-120 | While the list is shorter than N, the insert probe never runs out of slots. |
| HashIndex.PlaceOnCleanTable | hash_map.h:109-119 | Without TOMBSTONEs, the insert probe for a live record's key stops at a slot holding that key. |
| HashIndex.CleanInsert | hash_map.h:107-121 | Without TOMBSTONEs, the insert probe stops at the key exactly when some live record has it. (On a full table an absent key finds no room, and insert also changes nothing.) |
| HashIndex.MissThenClaim | hash_map.h:187-189 | When a lookup stops at an EMPTY slot, insert of that key claims a slot no later on the probe sequence. |
| HashIndex.ClaimKeeps | hash_map.h:111-114 | Claiming the first free slot of a record's probe sequence keeps the index consistent with the extended list. |
| HashIndex.InsertSpec | hash_map.h:107-121 | insert keeps the invariant. A claim appends exactly (k, v) at the end of the iteration order; otherwise nothing changes. It declines only for a present key or a full table. It never creates a TOMBSTONE: every TOMBSTONE afterwards was one before. |
| HashIndex.InsertNext | hash_map.h:37-53 | One round of the constructors' insert loop on a fresh table turns `Dedup(items[..p])` into `Dedup(items[..p + 1])`. |
| HashIndex.InsertThenFind | hash_map.h:107-121 | After inserting a key no live record has, `find` returns the new record with value v, on any consistent index over the new list (also after a resize). |
| HashIndex.TombstoneAdmitsDuplicate | hash_map.h:111-119 | A TOMBSTONE ahead of the only record with key k makes insert(k, v) claim a slot. The list then holds two records with key k. |
| HashIndex.TombstoneDuplicateWitness | hash_map.h:111-119 | A consistent two-slot table with a TOMBSTONE ahead of the only record with key 7 meets the premise of `TombstoneAdmitsDuplicate`; inserting 7 claims a slot and leaves two records with key 7. |
| HashIndex.VacateKeeps | hash_map.h:127-131 | Unlinking an OCCUPIED slot's record and marking the slot TOMBSTONE keeps the index consistent. |
| HashIndex.EraseSpec | hash_map.h:123-137 | erase removes exactly the record `find` returns from the list and the store. The other records keep their order. Only that record's slot changes, to TOMBSTONE. With `find` at `end()` nothing changes. |
| HashIndex.EraseIdempotent | hash_map.h:123-137 | When at most one live record has key k, erasing k twice has the same effect as erasing it once. |
| HashIndex.EraseHit | hash_map.h:123-137 | erase of a key some live record has removes one record with that key, shortens the list by one, and keeps the index consistent. |
| HashIndex.EraseRemovesOneDuplicate | hash_map.h:111-137 | The converse of `EraseIdempotent`: with two live records of key k (possible through a TOMBSTONE), one erase leaves a record with key k, and a second erase removes another record. |
| HashIndex.DuplicateEraseWitness | hash_map.h:111-137 | A consistent two-slot table holding key 7 twice, on which erasing 7 twice differs from erasing it once. |
| HashIndex.ZeroSpreads | hash_map.h:142-148 | An EMPTY slot met by a walk spreads forward over slots that were not EMPTY before clear(). |
| HashIndex.WalkCovers | hash_map.h:140-149 | The walk from a record's home slot that stops at an EMPTY slot has zeroed everything from the home slot up to the record's own slot. |
| HashIndex.ClearComplete | hash_map.h:139-152 | After all walks, no slot is OCCUPIED. Each slot is EMPTY or a TOMBSTONE that was there before. The empty list is consistently indexed. |
| HashIndex.ZeroBlocks | hash_map.h:142-148 | A walk that meets an EMPTY slot and, further on, a slot that is not EMPTY has passed a slot that was EMPTY before clear() began. |
| HashIndex.SweepStep | hash_map.h:140-149 | If the walks of the first p records zeroed exactly their runs of non-EMPTY slots from the home slot, then after walk p the walks have zeroed exactly the runs of the first p + 1 records. Every other slot keeps its state. |
| HashIndex.ClearedAdvance | hash_map.h:140-149 | Walk p keeps the earlier records' probe prefixes zeroed and zeroes record p's own. |
| HashIndex.SweepAdvance | hash_map.h:140-149 | Walk p of clear() extends both facts, the zeroed runs and the cleared records, from p to p + 1. |
| HashIndex.FirstFree | hash_map.h:89-96 | The step reallocate's inner loop stops at: the first probe step whose slot is not OCCUPIED, with every earlier step OCCUPIED. |
| HashIndex.RelocatedStep | hash_map.h:88-97 | reallocate places the records in list order: placing the first p + 1 records is placing the first p, then record p at its first free slot. |
| HashIndex.CapacityPolicy | hash_map.h:100-105 | From `N >= 256` and `2 * count <= N + 2`, check() keeps `N >= 256`, keeps `2 * (count + 1) <= N + 2`, and leaves a free slot. |
| HashIndex.PreIncrementBound | hash_map.h:115-116 | An insert into a table that is already half full keeps N and leaves `2 * size == N + 2`; the post-increment count would have doubled N. |
| HashMaps.HashMap.Size | hash_map.h:55-57 | `size()` is the number of records in iteration order. |
| HashMaps.HashMap.IsEmpty | hash_map.h:59-61 | `empty()` holds exactly when `size() == 0`. |
| HashMaps.HashMap.constructor | hash_map.h:22-26 | An empty, valid, TOMBSTONE-free map of capacity 256. |
| HashMaps.HashMap.FromRange | hash_map.h:37-44 | Capacity 256, then the range inserted in order: the contents are `Dedup(items)`. N stays 256 while `2 * count <= 258`. |
| HashMaps.HashMap.FromList | hash_map.h:46-53 | Capacity max(256, 2 * count), then the items inserted: the contents are `Dedup(items)`. The capacity is unchanged for up to 257 items. |
| HashMaps.HashMap.Copy | hash_map.h:28-35 | Same hasher, starting at the other map's capacity, then its records re-inserted in its iteration order: the contents are `Dedup(other.Contents())`. The capacity is kept while no re-insert resizes. |
| HashMaps.HashMap.InsertAll | hash_map.h:42-43 | The constructors' insertion loop: it keeps the invariant, the policy and a TOMBSTONE-free table, and yields `Dedup(items)`. |
| HashMaps.HashMap.Reallocate | hash_map.h:83-98 | The slots become exactly `Relocated(FreshLayout(size), list)`: `size` EMPTY slots, then each record in list order at the first free slot of its probe sequence. The index is consistent and TOMBSTONE-free. The list, its records and the count are unchanged. |
| HashMaps.HashMap.NewSlots | hash_map.h:84-87 | Two fresh arrays of `size` slots, all EMPTY. |
| HashMaps.HashMap.Install | hash_map.h:84-87 | The new arrays and capacity take the place of the old ones. The list is unchanged and no record is placed yet. |
| HashMaps.HashMap.RehomeAll | hash_map.h:88-97 | The outer loop of reallocate: the slots become exactly `Relocated(start, list)`, every record placed in list order, and the index is consistent. |
| HashMaps.HashMap.Rehome | hash_map.h:89-96 | Record p goes to `FirstFree` of its probe sequence, which exists. That slot becomes OCCUPIED and points at it, and no other slot changes (`PlaceOne`). The consistent prefix of the index grows by that record. |
| HashMaps.HashMap.FreeStep | hash_map.h:89-96 | The unbounded inner loop of reallocate returns the first step whose slot is EMPTY or TOMBSTONE. Every earlier step is OCCUPIED. |
| HashMaps.HashMap.Check | hash_map.h:100-105 | `N` becomes `NewCapacity(count, N)`. Without a resize nothing changes. With one the slots are exactly what reallocate builds for the list (`Rebuilt`), TOMBSTONE-free. The list is unchanged, and the policy is kept. |
| HashMaps.HashMap.Insert | hash_map.h:107-121 | The list becomes that of `Inserted`, and so does the whole state when N is kept. After a resize the slots are what reallocate builds for the new list (`Rebuilt`). N follows check() on the pre-increment count. The invariant, the policy and absence of TOMBSTONEs are kept. |
| HashMaps.HashMap.PlaceProbe | hash_map.h:108-120 | The probe loop of insert computes `PlaceFrom` from step 0. |
| HashMaps.HashMap.Occupy | hash_map.h:111-116 | The claim: the state becomes `Inserted(old state)`, and `table_size` grows by one. |
| HashMaps.HashMap.LookupProbe | hash_map.h:154-165 | The probe loop of find, erase, at and operator[] computes `LookupFrom` from step 0. |
| HashMaps.HashMap.Erase | hash_map.h:123-137 | The state becomes `Erased(old state)`, which `EraseSpec` characterises: the found record leaves, the others keep their order, and its slot becomes a TOMBSTONE. N and the policy are kept. |
| HashMaps.HashMap.Unlink | hash_map.h:127-131 | The removal: the state becomes `Erased(old state)`, and `table_size` drops by one. |
| HashMaps.HashMap.Clear | hash_map.h:139-152 | The list ends empty and the count 0, with N and `table` unchanged. A slot ends EMPTY exactly when it lies in the run of non-EMPTY slots from some old record's home slot (`Swept`). Otherwise it keeps its old state, so every slot ends EMPTY or an old TOMBSTONE. Every old record's probe prefix is zeroed. |
| HashMaps.HashMap.ZeroAll | hash_map.h:140-149 | The loop of clear() over the list: it zeroes exactly the runs from the records' home slots, leaves every other slot as it was, and clears each listed record's probe prefix. |
| HashMaps.HashMap.SweepNext | hash_map.h:141-148 | One pass of that loop: the walk of record p, extending the zeroed runs and the cleared records from p to p + 1. |
| HashMaps.HashMap.ZeroRun | hash_map.h:141-148 | One walk of clear(): it zeroes exactly the first m slots of the probe sequence, which were not EMPTY. It stops at the first slot that was EMPTY, or after all N slots. Every slot off the walk keeps its state. |
| HashMaps.HashMap.Find | hash_map.h:154-165 | `find` returns `FindHandle` of the state and changes nothing. |
| HashMaps.HashMap.At | hash_map.h:195-206 | `at` returns the value of the record `find` reaches, or `out_of_range` exactly when `find` gives `end()`. |
| HashMaps.HashMap.Subscript | hash_map.h:180-193 | On a hit, `operator[]` returns what `find` returns and changes nothing. At an EMPTY slot it inserts (k, default) and returns the new record: N becomes `NewCapacity` of the old count, without a resize the state is exactly `Inserted(old state)`, and after one the slots are `Rebuilt`. After N probes it returns the last record (none on an empty list) and changes nothing. A clean table stays clean. |
| HashMaps.HashMap.InsertMissing | hash_map.h:187-189 | The miss branch of `operator[]`: after a lookup stopped at an EMPTY slot, (k, default) is appended under the next id; N becomes `NewCapacity` of the old count, the state is `Inserted(old state)` without a resize and `Rebuilt` after one, and the policy and a clean table are kept. |

## Left out

- The hasher is the constant function field `hash: K -> nat`. `std::hash` and user hashers are not modelled.
- `size_t` wrap-around of `hash + i` is not modelled: probe positions use unbounded integers. The `int` truncation of `k` in reallocate's loop is likewise not modelled.
- Iterators and references are record ids, so operations that return an iterator or reference return an id.
  - Writes through a returned reference are not modelled.
  - `begin()`, `end()` and `hash_function()` are plain accessors and are left out. `Contents()` stands for iteration.
- The `const` overloads of `find`, `at`, `begin` and `end` have the same bodies as the non-const ones and are not modelled separately.
- `operator=` is not modelled. It never clears the target, so on a non-empty target it merges into an index that no longer matches `N`.
- The unused constant `ratio` is not modelled.
- `memset` and `vector::resize` mechanics are not modelled. Reallocate allocates fresh arrays whose slots point at id 0, whereas `resize` keeps stale iterators. Those pointers are never read, because only OCCUPIED slots are dereferenced.
- Check and Occupy: check() receives the pre-increment count as the argument `count`, and the increment happens before the call instead of after it. The resulting state is the same.
- Reallocate: requires `0 < size` and a list length no larger than `size`. Inside insert's `check()` the list length is `size() + 1`. With records in the list, the source divides by zero for size 0 (the `% N` of hash_map.h:90); its unbounded loop never ends when the records outnumber the slots. On an empty list `reallocate(0)` succeeds and leaves a map of capacity 0, on which `insert` does nothing (its probe loop never runs) and `at` always throws `out_of_range`. The model does not cover capacity 0: `Valid()` needs `N > 0`.
- Copy: requires the source map to have `N >= 256`. This holds for every map built by the constructors and kept by check(). A map shrunk below 256 by a direct call to reallocate is not covered.
- FromList: promises an unchanged capacity only up to 257 items. The capacity is in fact kept up to 899 items. From 900 items on, check() shrinks N during construction and grows it back later: 1000 items take N from 2000 to 1000 at count 257, and back to 2000 at count 501.
- Copy: promises `N == other.N` only while no re-insert resizes (at most 257 records with `2 * size <= N + 2`). Otherwise it promises only the policy bounds.
- Subscript: `l.back()` on an empty list is undefined behaviour in C++. The model returns None there.
- Subscript: the default-constructed `ValueType()` is the parameter `dflt`.
- Exceptions other than `out_of_range` (allocation failure) and concurrency are not modelled.
