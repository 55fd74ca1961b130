/**
 * `HashMap<KeyType, ValueType, Hash>` of hash_map.h: an insertion-ordered
 * list of records indexed by an open-addressed, linearly probed table.
 * The fields follow the C++ class: the capacity `N`, the live count
 * `table_size`, the slot states `deleted` (0 EMPTY, 1 TOMBSTONE, 2 OCCUPIED),
 * the slot pointers `table` into the list, and the list `l` itself, here the
 * id sequence `order` with the map `store` from id to record. The id counter
 * `nextId` is the model's own.
 */
module HashMaps {
  import opened RecordList
  import opened HashIndex

  /** The result of `at`: the value, or the `std::out_of_range` it throws. */
  datatype Result<T> = Ok(value: T) | OutOfRange

  class HashMap<K(==,!new), V> {
    /** `hasher` */
    const hash: K -> nat
    /** `N`: the capacity */
    var N: nat
    /** `table_size`: the live count */
    var tableSize: nat
    /** `deleted`: the state of each slot */
    var deleted: array<int>
    /** `table`: for each OCCUPIED slot, the id of its list node */
    var table: array<nat>
    /** `l`: the ids of the list nodes in order, and the record of each node */
    var order: seq<nat>
    var store: map<nat, Rec<K, V>>
    /** The id the next `push_back` gives its node */
    var nextId: nat
    /** Proof bookkeeping: the probe step at which each record sits */
    ghost var steps: map<nat, nat>

    /** The whole container as a value. */
    ghost function Model(): Table<K, V>
      reads this`deleted, this`table, this`order, this`store, this`steps, deleted, table
    {
      Table(deleted[..], table[..], order, store, steps)
    }

    /** The list is well formed and the arrays have N slots. */
    ghost predicate ListOk()
      reads this`deleted, this`table, this`N, this`order, this`store, this`nextId
    {
      && deleted.Length == N && table.Length == N
      && StoreOk(order, store)
      && (forall id :: id in store ==> id < nextId)
    }

    /** The index is consistent with the list. */
    ghost predicate IndexOk()
      reads this`deleted, this`table, this`N, this`order, this`store, this`nextId
      reads this`steps, deleted, table
    {
      ListOk() && N > 0 && IndexValid(Model(), hash)
    }

    /** The class invariant: a consistent index, and `table_size` equals the list length. */
    ghost predicate Valid()
      reads this, deleted, table
    {
      IndexOk() && tableSize == |order|
    }

    /** The slots are those reallocate builds for the list: every record placed, in list order, into N EMPTY slots. */
    ghost predicate Rebuilt()
      reads this`deleted, this`table, this`N, this`order, this`store, deleted, table
      requires forall id :: id in order ==> id in store
      requires deleted.Length == table.Length == N > 0
    {
      (deleted[..], table[..]) == Relocated(FreshLayout(N), order, store, hash)
    }

    /** The bounds that check() maintains: capacity at least 256, 2 * size <= N + 2. */
    ghost predicate Policy()
      reads this`N, this`tableSize
    {
      N >= INIT_SIZE && 2 * tableSize <= N + 2
    }

    /** No TOMBSTONE in the table (fresh, cleared of erasures, or just reallocated). */
    ghost predicate Clean()
      reads this`deleted, deleted
    {
      NoTombstones(deleted[..])
    }

    /** What the probe loops need: N slots in both arrays, each slot state valid. */
    ghost predicate Shaped()
      reads this`deleted, this`table, this`N, this`order, this`store, this`steps, deleted, table
    {
      deleted.Length == N && table.Length == N && Wf(Model())
    }

    /** The records in iteration order (`begin()` to `end()`). */
    function Contents(): seq<Rec<K, V>>
      reads this`order, this`store
      requires forall id :: id in order ==> id in store
    {
      Records(order, store)
    }

    /** `size()`: the live count, which is the length of the list. */
    function Size(): (n: nat)
      reads this, deleted, table
      requires Valid()
      ensures n == |Contents()|
    {
      tableSize
    }

    /** `empty()`: asks the list, and agrees with `size() == 0`. */
    function IsEmpty(): (b: bool)
      reads this, deleted, table
      requires Valid()
      ensures b <==> Size() == 0
    {
      order == []
    }

    // -------------------------------------------------------------------
    // Construction

    /** `HashMap(Hash hh = Hash())`: an empty map of capacity 256. */
    constructor (hash: K -> nat)
      ensures Valid() && Policy() && Clean() && fresh(deleted) && fresh(table)
      ensures this.hash == hash && N == INIT_SIZE && Contents() == []
    {
      this.hash := hash;
      N := INIT_SIZE;
      tableSize := 0;
      deleted := new int[INIT_SIZE](_ => EMPTY);
      table := new nat[INIT_SIZE];
      order, store, nextId := [], map[], 0;
      steps := map[];
      new;
      EmptyTable(Model(), hash);
    }

    /** `HashMap(begin, end, hh)`: capacity 256, then each item of the range inserted in turn. */
    constructor FromRange(items: seq<Rec<K, V>>, hash: K -> nat)
      ensures Valid() && Policy() && Clean() && fresh(deleted) && fresh(table)
      ensures this.hash == hash && Contents() == Dedup(items)
      ensures 2 * |items| <= INIT_SIZE + 2 ==> N == INIT_SIZE
    {
      this.hash := hash;
      N := INIT_SIZE;
      tableSize := 0;
      deleted := new int[INIT_SIZE](_ => EMPTY);
      table := new nat[INIT_SIZE];
      order, store, nextId := [], map[], 0;
      steps := map[];
      new;
      EmptyTable(Model(), hash);
      InsertAll(items);
    }

    /** `HashMap(init_list, hh)`: capacity max(256, 2 * count), then each item inserted in turn. */
    constructor FromList(items: seq<Rec<K, V>>, hash: K -> nat)
      ensures Valid() && Policy() && Clean() && fresh(deleted) && fresh(table)
      ensures this.hash == hash && Contents() == Dedup(items)
      ensures |items| <= INIT_SIZE + 1 ==> N == if 2 * |items| > INIT_SIZE then 2 * |items| else INIT_SIZE
    {
      var n: nat := if 2 * |items| > INIT_SIZE then 2 * |items| else INIT_SIZE;
      this.hash := hash;
      N := n;
      tableSize := 0;
      deleted := new int[n](_ => EMPTY);
      table := new nat[n];
      order, store, nextId := [], map[], 0;
      steps := map[];
      new;
      EmptyTable(Model(), hash);
      InsertAll(items);
    }

    /**
     * `HashMap(const HashMap& other)`: the capacity of `other`, then the
     * records of `other` re-inserted in its iteration order.
     */
    constructor Copy(other: HashMap<K, V>)
      requires other.Valid() && other.N >= INIT_SIZE
      ensures Valid() && Policy() && Clean() && fresh(deleted) && fresh(table)
      ensures hash == other.hash && Contents() == Dedup(old(other.Contents()))
      ensures 2 * |old(other.Contents())| <= old(other.N) + 2 && |old(other.Contents())| <= INIT_SIZE + 1 ==> N == old(other.N)
    {
      var n := other.N;
      var items := other.Contents();
      hash := other.hash;
      N := n;
      tableSize := 0;
      deleted := new int[n](_ => EMPTY);
      table := new nat[n];
      order, store, nextId := [], map[], 0;
      steps := map[];
      new;
      EmptyTable(Model(), hash);
      InsertAll(items);
    }

    /** The insertion loop the constructors share, on a table that starts empty. */
    method InsertAll(items: seq<Rec<K, V>>)
      requires Valid() && Policy() && Clean() && order == []
      modifies this, deleted, table
      ensures Valid() && Policy() && Clean() && (deleted == old(deleted) || fresh(deleted)) && (table == old(table) || fresh(table))
      ensures Contents() == Dedup(items)
      ensures 2 * |items| <= old(N) + 2 && |items| <= INIT_SIZE + 1 ==> N == old(N)
    {
      var p := 0;
      while p < |items|
        invariant 0 <= p <= |items|
        invariant Valid() && Policy() && Clean() && (deleted == old(deleted) || fresh(deleted)) && (table == old(table) || fresh(table))
        invariant Contents() == Dedup(items[..p])
        invariant tableSize <= p
        invariant 2 * |items| <= old(N) + 2 && |items| <= INIT_SIZE + 1 ==> N == old(N)
      {
        InsertNext(Model(), hash, items, p, nextId);
        Insert(items[p].key, items[p].value);
        p := p + 1;
      }
      assert items[..p] == items;
    }

    // -------------------------------------------------------------------
    // Resizing

    /**
     * `reallocate(size)`: N slots, all EMPTY, then every record re-placed in
     * list order at the first free slot of its probe sequence. The list and
     * its records (and so every handle) are untouched.
     */
    method Reallocate(size: nat)
      requires ListOk() && 0 < size && |order| <= size
      modifies this
      ensures IndexOk() && Clean() && N == size && fresh(deleted) && fresh(table)
      ensures order == old(order) && store == old(store)
      ensures tableSize == old(tableSize) && nextId == old(nextId)
      ensures (deleted[..], table[..]) == Relocated(FreshLayout(size), order, store, hash)
    {
      var d, t := NewSlots(size);
      Install(d, t);
      RehomeAll(FreshLayout(size));
    }

    /** The fresh arrays of reallocate take the place of the old ones; no record is placed yet. */
    method Install(d: array<int>, t: array<nat>)
      requires ListOk() && 0 < d.Length && |order| <= d.Length
      requires t.Length == d.Length && (d[..], t[..]) == FreshLayout(d.Length)
      modifies this
      ensures ListOk() && |order| <= N && SlotsValid(Prefix(0), hash) && Clean()
      ensures N == d.Length && deleted == d && table == t && (deleted[..], table[..]) == FreshLayout(N)
      ensures order == old(order) && store == old(store)
      ensures tableSize == old(tableSize) && nextId == old(nextId)
    {
      EmptyTable(Table(d[..], t[..], [], store, map[]), hash);
      N, deleted, table, steps := d.Length, d, t, map[];
      assert Prefix(0) == Table(d[..], t[..], [], store, map[]);
    }

    /** The two arrays of a fresh index of `size` slots, all EMPTY. */
    static method NewSlots(size: nat) returns (d: array<int>, t: array<nat>)
      ensures fresh(d) && fresh(t) && d.Length == t.Length == size
      ensures (d[..], t[..]) == FreshLayout(size)
    {
      d := new int[size](_ => EMPTY);
      t := new nat[size](_ => 0);
      assert d[..] == FreshLayout(size).0 && t[..] == FreshLayout(size).1;
    }

    /** The outer loop of reallocate: every record of the list re-placed, in list order. */
    method RehomeAll(ghost start: (seq<int>, seq<nat>))
      requires ListOk() && |order| <= N && SlotsValid(Prefix(0), hash) && Clean()
      requires (deleted[..], table[..]) == start
      modifies deleted, table, this`steps
      ensures SlotsValid(Model(), hash) && Clean()
      ensures (deleted[..], table[..]) == Relocated(start, order, store, hash)
    {
      for p := 0 to |order|
        invariant SlotsValid(Prefix(p), hash) && Clean()
        invariant (deleted[..], table[..]) == Relocated(start, order[..p], store, hash)
      {
        RelocatedStep(start, order, p, store, hash);
        Rehome(p);
      }
      assert order[..|order|] == order;
      assert Prefix(|order|) == Model();
    }

    /** The index as it stands while reallocate has re-placed the first `p` records. */
    ghost function Prefix(p: nat): Table<K, V>
      reads this`deleted, this`table, this`order, this`store, this`steps, deleted, table
      requires p <= |order|
    {
      Table(deleted[..], table[..], order[..p], store, steps)
    }

    /**
     * One pass of reallocate's outer loop: the record `order[p]` goes to the
     * first free slot of its probe sequence, which then points at it.
     */
    method Rehome(p: nat)
      requires ListOk() && p < |order| && |order| <= N
      requires SlotsValid(Prefix(p), hash) && Clean()
      modifies deleted, table, this`steps
      ensures SlotsValid(Prefix(p + 1), hash) && Clean()
      ensures FirstFree(old(deleted[..]), hash(store[order[p]].key), 0) < N
      ensures (deleted[..], table[..]) == PlaceOne((old(deleted[..]), old(table[..])), order[p], hash(store[order[p]].key))
    {
      ghost var t0 := Prefix(p);
      var id := order[p];
      var h := hash(store[id].key);
      var d := FreeStep(h);
      var s := Pos(h, d, N);
      assert FirstFree(t0.states, h, 0) == d;
      assert id !in order[..p];
      ClaimKeeps(t0, hash, id, store[id], d);
      deleted[s] := OCCUPIED;
      table[s] := id;
      steps := steps[id := d];
      assert order[..p + 1] == order[..p] + [id];
      assert store[id := store[id]] == store;
      assert deleted[..] == t0.states[s := OCCUPIED];
      assert table[..] == t0.slots[s := id];
      assert Prefix(p + 1) == Claimed(t0, s, id, store[id], d);
    }

    /**
     * The inner loop of reallocate, which has no bound: the first probe step
     * from `h` whose slot is EMPTY or TOMBSTONE. One exists while fewer than
     * N slots are OCCUPIED.
     */
    method FreeStep(h: nat) returns (d: nat)
      requires deleted.Length == N && N > 0 && Count(deleted[..]) < N
      requires forall j :: 0 <= j < N ==> deleted[j] == EMPTY || deleted[j] == TOMBSTONE || deleted[j] == OCCUPIED
      ensures d < N && (deleted[Pos(h, d, N)] == EMPTY || deleted[Pos(h, d, N)] == TOMBSTONE)
      ensures forall e :: 0 <= e < d ==> deleted[Pos(h, e, N)] == OCCUPIED
    {
      d := 0;
      while true
        invariant d < N
        invariant forall e :: 0 <= e < d ==> deleted[Pos(h, e, N)] == OCCUPIED
        decreases N - d
      {
        var s := Pos(h, d, N);
        if deleted[s] == EMPTY || deleted[s] == TOMBSTONE {
          return;
        }
        d := d + 1;
        FreeSlotAhead(deleted[..], h, d);
      }
    }

    /**
     * `check()`: grow to 2N when 2 * size > N, else shrink to N/2 when
     * size > 256 and 7 * size < N. `count` is the `size()` the call sees,
     * that is `table_size`; insert increments it only after this call, so
     * from insert `count` is one less than the length of the list.
     */
    method Check(count: nat)
      requires Valid() && |order| <= count + 1
      modifies this, deleted, table
      ensures Valid() && (deleted == old(deleted) || fresh(deleted)) && (table == old(table) || fresh(table))
      ensures order == old(order) && store == old(store)
      ensures tableSize == old(tableSize) && nextId == old(nextId)
      ensures N == NewCapacity(count, old(N))
      ensures N == old(N) ==> Model() == old(Model()) && deleted == old(deleted) && table == old(table)
      ensures N != old(N) ==> Clean() && Rebuilt()
      ensures old(N) >= INIT_SIZE && 2 * count <= old(N) + 2 && tableSize <= count + 1 ==> Policy()
    {
      ListFits(Model(), hash);
      if old(N) >= INIT_SIZE && 2 * count <= old(N) + 2 {
        CapacityPolicy(count, old(N));
      }
      if count * 2 > N {
        Reallocate(N * 2);
      } else if count > INIT_SIZE && count * 7 < N {
        Reallocate(N / 2);
      }
    }

    // -------------------------------------------------------------------
    // Insertion and removal

    /**
     * `insert(value)`: probe from the home slot; the first EMPTY or TOMBSTONE
     * slot is claimed and the record appended to the list; an OCCUPIED slot
     * with the key met before that makes it a no-op.
     */
    method Insert(k: K, v: V)
      requires Valid()
      modifies this, deleted, table
      ensures Valid() && (deleted == old(deleted) || fresh(deleted)) && (table == old(table) || fresh(table))
      ensures var t := Inserted(old(Model()), hash, k, v, old(nextId));
              && order == t.order && store == t.store
              && (N == old(N) ==> Model() == t)
      ensures N == if PlaceFrom(old(Model()), hash(k), k, 0).Claim? then NewCapacity(old(tableSize), old(N)) else old(N)
      ensures N != old(N) ==> Clean() && Rebuilt()
      ensures old(Policy()) ==> Policy()
      ensures old(Clean()) ==> Clean()
    {
      InsertSpec(Model(), hash, k, v, nextId);
      var r := PlaceProbe(k);
      if r.Claim? {
        var count := tableSize;
        Occupy(k, v, r.step);
        Check(count);
      }
    }

    /**
     * The probe loop of insert: from the home slot, the first slot that is
     * EMPTY or TOMBSTONE, or the first OCCUPIED slot with the key, whichever
     * comes first, or neither after N probes.
     */
    method PlaceProbe(k: K) returns (r: Placement)
      requires Shaped()
      ensures r == PlaceFrom(Model(), hash(k), k, 0)
    {
      var hv := hash(k);
      var i := 0;
      r := NoRoom;
      while i < N
        invariant i <= N
        invariant PlaceFrom(Model(), hv, k, i) == PlaceFrom(Model(), hv, k, 0)
      {
        var index := Pos(hv, i, N);
        if deleted[index] == EMPTY || deleted[index] == TOMBSTONE {
          return Claim(i);
        } else if store[table[index]].key == k {
          return Present(i);
        }
        i := i + 1;
      }
    }

    /**
     * The probe loop of find, erase, at and operator[]: from the home slot,
     * the first OCCUPIED slot with the key, unless an EMPTY slot comes first,
     * or neither after N probes.
     */
    method LookupProbe(k: K) returns (r: Lookup)
      requires Shaped()
      ensures r == LookupFrom(Model(), hash(k), k, 0)
    {
      var hv := hash(k);
      var i := 0;
      r := Exhausted;
      while i < N
        invariant i <= N
        invariant LookupFrom(Model(), hv, k, i) == LookupFrom(Model(), hv, k, 0)
      {
        var index := Pos(hv, i, N);
        if deleted[index] == OCCUPIED && store[table[index]].key == k {
          return Hit(i);
        } else if deleted[index] == EMPTY {
          return Miss(i);
        }
        i := i + 1;
      }
    }

    /**
     * The claim step of insert: the free slot at probe step `d` becomes
     * OCCUPIED, the record is appended to the list (`push_back`), the slot
     * points at its node, and `table_size` grows by one. (The model performs
     * the increment before check(), which receives the old count instead.)
     */
    method Occupy(k: K, v: V, d: nat)
      requires Valid() && PlaceFrom(Model(), hash(k), k, 0) == Claim(d)
      modifies this`order, this`store, this`nextId, this`steps, this`tableSize, deleted, table
      ensures Valid() && tableSize == old(tableSize) + 1
      ensures Model() == Inserted(old(Model()), hash, k, v, old(nextId))
      ensures old(Clean()) ==> Clean()
    {
      ghost var t0 := Model();
      var index := Pos(hash(k), d, N);
      var id := nextId;
      assert |t0.states| == N;
      InsertSpec(t0, hash, k, v, id);
      assert Inserted(t0, hash, k, v, id) == Claimed(t0, index, id, Rec(k, v), d);
      deleted[index] := OCCUPIED;
      order := order + [id];
      store := store[id := Rec(k, v)];
      nextId := nextId + 1;
      table[index] := id;
      steps := steps[id := d];
      tableSize := tableSize + 1;
      assert deleted[..] == t0.states[index := OCCUPIED];
      assert table[..] == t0.slots[index := id];
      assert Model() == Claimed(t0, index, id, Rec(k, v), d);
    }

    /**
     * `erase(key)`: probe like find; on a match the slot becomes a TOMBSTONE
     * and exactly that record leaves the list; at an EMPTY slot or after N
     * probes it is a no-op.
     */
    method Erase(k: K)
      requires Valid()
      modifies this, deleted, table
      ensures Valid() && deleted == old(deleted) && table == old(table) && N == old(N) && nextId == old(nextId)
      ensures Model() == Erased(old(Model()), hash, k)
      ensures old(Policy()) ==> Policy()
    {
      var r := LookupProbe(k);
      if r.Hit? {
        Unlink(k, r.step);
      }
    }

    /**
     * The removal step of erase: the record in the slot at probe step `d`
     * leaves the list (`l.erase`), the slot becomes a TOMBSTONE, and the
     * count drops by one.
     */
    method Unlink(k: K, d: nat)
      requires Valid() && LookupFrom(Model(), hash(k), k, 0) == Hit(d)
      modifies this`order, this`store, this`tableSize, deleted
      ensures Valid() && Model() == Erased(old(Model()), hash, k)
      ensures tableSize + 1 == old(tableSize)
    {
      ghost var t0 := Model();
      var index := Pos(hash(k), d, N);
      assert |t0.states| == N && Pos(hash(k), d, N) == index;
      assert Erased(t0, hash, k) == Vacated(t0, index);
      VacateKeeps(t0, hash, index);
      var id := table[index];
      assert id in order;
      order := Without(order, id);
      store := store - {id};
      deleted[index] := TOMBSTONE;
      tableSize := tableSize - 1;
      assert deleted[..] == t0.states[index := TOMBSTONE];
      assert Model() == Vacated(t0, index);
    }

    /**
     * `clear()`: for each record, zero the slots from its HOME slot onwards
     * until an EMPTY slot; then empty the list. The slots zeroed are exactly
     * the runs of non-EMPTY slots from the home slots; every OCCUPIED slot is
     * in one, and every slot outside them, a TOMBSTONE included, stays.
     */
    method Clear()
      requires Valid()
      modifies this, deleted
      ensures Valid() && deleted == old(deleted) && table == old(table) && N == old(N) && nextId == old(nextId)
      ensures order == [] && store == map[] && tableSize == 0 && Contents() == []
      ensures table[..] == old(table[..])
      ensures forall j :: 0 <= j < N ==>
                deleted[j] == EMPTY || (deleted[j] == TOMBSTONE && old(deleted[j]) == TOMBSTONE)
      ensures forall id :: id in old(order) ==> Cleared(old(Model()), hash, id, deleted[..])
      ensures forall j :: 0 <= j < N ==>
                deleted[j] == if Swept(old(deleted[..]), old(Contents()), hash, |old(order)|, j) then EMPTY else old(deleted[j])
      ensures old(Policy()) ==> Policy()
    {
      ghost var t0 := Model();
      ZeroAll(t0);
      ClearComplete(t0, hash, deleted[..]);
      tableSize := 0;
      order := [];
      store := map[];
      steps := map[];
    }

    /** The loop of clear() over the list: one walk per record, each clearing that record's slot. */
    method ZeroAll(ghost t0: Table<K, V>)
      requires deleted.Length == N && N > 0 && SlotsValid(t0, hash)
      requires t0.states == deleted[..] && t0.order == order && t0.store == store
      modifies deleted
      ensures forall j :: 0 <= j < N ==> deleted[j] == EMPTY || deleted[j] == t0.states[j]
      ensures forall q :: 0 <= q < |order| ==> Cleared(t0, hash, order[q], deleted[..])
      ensures forall j :: 0 <= j < N ==>
                deleted[j] == if Swept(t0.states, Records(order, store), hash, |order|, j) then EMPTY else t0.states[j]
    {
      ghost var recs := Records(t0.order, t0.store);
      for p := 0 to |order|
        invariant forall j :: 0 <= j < N ==> deleted[j] == EMPTY || deleted[j] == t0.states[j]
        invariant ZeroClosed(t0.states, deleted[..])
        invariant forall q :: 0 <= q < p ==> Cleared(t0, hash, t0.order[q], deleted[..])
        invariant SweptExactly(t0.states, deleted[..], recs, hash, p)
      {
        SweepNext(t0, recs, p);
      }
    }

    /** Walk `p` of clear(), with what it adds to the walks before it. */
    method SweepNext(ghost t0: Table<K, V>, ghost recs: seq<Rec<K, V>>, p: nat)
      requires deleted.Length == N && N > 0 && SlotsValid(t0, hash) && |t0.states| == N
      requires t0.order == order && t0.store == store
      requires p < |order| && recs == Records(order, store)
      requires forall j :: 0 <= j < N ==> deleted[j] == EMPTY || deleted[j] == t0.states[j]
      requires ZeroClosed(t0.states, deleted[..])
      requires forall q :: 0 <= q < p ==> Cleared(t0, hash, t0.order[q], deleted[..])
      requires SweptExactly(t0.states, deleted[..], recs, hash, p)
      modifies deleted
      ensures forall j :: 0 <= j < N ==> deleted[j] == EMPTY || deleted[j] == t0.states[j]
      ensures ZeroClosed(t0.states, deleted[..])
      ensures forall q :: 0 <= q <= p ==> Cleared(t0, hash, t0.order[q], deleted[..])
      ensures SweptExactly(t0.states, deleted[..], recs, hash, p + 1)
    {
      ghost var before := deleted[..];
      ghost var m := ZeroRun(t0.states, hash(store[order[p]].key));
      SweepAdvance(t0, hash, recs, p, before, deleted[..], m);
    }

    /**
     * One walk of clear(): from the home slot of hash `h`, zero slots until
     * an EMPTY one. The walk only zeroes, and it ends after the `m` slots it
     * zeroed, at an EMPTY slot.
     */
    method ZeroRun(ghost orig: seq<int>, h: nat) returns (ghost m: nat)
      requires deleted.Length == N && N > 0 && |orig| == N
      requires forall j :: 0 <= j < N ==> deleted[j] == EMPTY || deleted[j] == orig[j]
      requires ZeroClosed(orig, deleted[..])
      modifies deleted
      ensures forall j :: 0 <= j < N ==> deleted[j] == EMPTY || deleted[j] == old(deleted[j])
      ensures ZeroClosed(orig, deleted[..])
      ensures m <= N && deleted[Pos(h, m, N)] == EMPTY
      ensures forall e :: 0 <= e < m ==> deleted[Pos(h, e, N)] == EMPTY
      ensures forall e :: 0 <= e < m ==> old(deleted[Pos(h, e, N)]) != EMPTY
      ensures m < N ==> old(deleted[Pos(h, m, N)]) == EMPTY
      ensures forall j :: 0 <= j < N ==> deleted[j] == if OnWalk(h, m, N, j) then EMPTY else old(deleted[j])
    {
      var index := h % N;
      m := 0;
      PosWrap(h, N);
      while true
        invariant m <= N && index == Pos(h, m, N)
        invariant forall e :: 0 <= e < m ==> deleted[Pos(h, e, N)] == EMPTY
        invariant forall e :: 0 <= e < m ==> old(deleted[Pos(h, e, N)]) != EMPTY
        invariant forall j :: 0 <= j < N ==> deleted[j] == if OnWalk(h, m, N, j) then EMPTY else old(deleted[j])
        invariant forall j :: 0 <= j < N && deleted[j] == EMPTY && orig[j] != EMPTY && (j + 1) % N != index
                    ==> deleted[(j + 1) % N] == EMPTY
        decreases N - m
      {
        if deleted[index] == EMPTY {
          if m < N {
            PosInjective(h, StepTo(h, index, N), m, N);
          }
          break;
        } else {
          PosInjective(h, StepTo(h, index, N), m, N);
          deleted[index] := EMPTY;
        }
        PosNext(h, m, N);
        index := (index + 1) % N;
        m := m + 1;
      }
    }

    // -------------------------------------------------------------------
    // Lookup

    /**
     * `find(key)`: the id of the record in the first OCCUPIED slot with the
     * key, or None (`end()`) at an EMPTY slot or after N probes.
     */
    method Find(k: K) returns (r: Option<nat>)
      requires Valid()
      ensures r == FindHandle(Model(), hash, k)
    {
      var p := LookupProbe(k);
      if p.Hit? {
        r := Some(table[Pos(hash(k), p.step, N)]);
      } else {
        r := None;
      }
    }

    /** `at(key)`: the value find would reach, or `out_of_range` exactly when find gives `end()`. */
    method At(k: K) returns (r: Result<V>)
      requires Valid()
      ensures r == match FindHandle(Model(), hash, k)
                   case Some(id) => Ok(store[id].value)
                   case None => OutOfRange
    {
      var p := LookupProbe(k);
      if p.Hit? {
        r := Ok(store[table[Pos(hash(k), p.step, N)]].value);
      } else {
        r := OutOfRange;
      }
    }

    /**
     * `operator[](key)`: the handle of the record whose value it references.
     * A hit changes nothing; an EMPTY slot first inserts (key, default); N
     * probes without either return the LAST record of the list, and on an
     * empty list (`l.back()` of nothing) None.
     */
    method Subscript(k: K, dflt: V) returns (r: Option<nat>)
      requires Valid()
      modifies this, deleted, table
      ensures Valid() && (deleted == old(deleted) || fresh(deleted)) && (table == old(table) || fresh(table))
      ensures r.Some? ==> r.value in store
      ensures match LookupFrom(old(Model()), hash(k), k, 0)
        case Hit(_) =>
          && r == FindHandle(old(Model()), hash, k)
          && order == old(order) && store == old(store) && Model() == old(Model()) && N == old(N)
        case Miss(_) =>
          && r == Some(old(nextId))
          && order == old(order) + [old(nextId)]
          && store == old(store)[old(nextId) := Rec(k, dflt)]
          && Contents() == old(Contents()) + [Rec(k, dflt)]
          && N == NewCapacity(old(tableSize), old(N))
          && (N == old(N) ==> Model() == Inserted(old(Model()), hash, k, dflt, old(nextId)))
          && (N != old(N) ==> Clean() && Rebuilt())
        case Exhausted =>
          && r == (if old(order) == [] then None else Some(old(order)[|old(order)| - 1]))
          && order == old(order) && store == old(store) && Model() == old(Model()) && N == old(N)
      ensures old(Policy()) ==> Policy()
      ensures old(Clean()) ==> Clean()
    {
      ghost var t0 := Model();
      var p := LookupProbe(k);
      assert p == LookupFrom(t0, hash(k), k, 0);
      match p
      case Hit(d) =>
        r := Some(table[Pos(hash(k), d, N)]);
      case Miss(_) =>
        r := Some(nextId);
        InsertMissing(k, dflt);
      case Exhausted =>
        r := if order == [] then None else Some(order[|order| - 1]);
    }

    /**
     * The miss branch of `operator[]`: a lookup that stopped at an EMPTY slot
     * means insert claims a slot, so (k, dflt) is appended under `nextId`.
     */
    method InsertMissing(k: K, dflt: V)
      requires Valid() && LookupFrom(Model(), hash(k), k, 0).Miss?
      modifies this, deleted, table
      ensures Valid() && (deleted == old(deleted) || fresh(deleted)) && (table == old(table) || fresh(table))
      ensures old(nextId) in store
      ensures order == old(order) + [old(nextId)]
      ensures store == old(store)[old(nextId) := Rec(k, dflt)]
      ensures Contents() == old(Contents()) + [Rec(k, dflt)]
      ensures N == NewCapacity(old(tableSize), old(N))
      ensures N == old(N) ==> Model() == Inserted(old(Model()), hash, k, dflt, old(nextId))
      ensures N != old(N) ==> Clean() && Rebuilt()
      ensures old(Policy()) ==> Policy()
      ensures old(Clean()) ==> Clean()
    {
      MissThenClaim(Model(), hash(k), k, 0);
      InsertSpec(Model(), hash, k, dflt, nextId);
      Insert(k, dflt);
    }
  }
}
