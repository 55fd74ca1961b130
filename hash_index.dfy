/**
 * The open-addressed index of the hash map, as values: the slot states
 * (`deleted`), the record id each slot points at (`table`), the probe
 * sequences of linear probing, the lookups and placements that walk them,
 * and the invariant that ties the index to the record list.
 */
module HashIndex {
  import opened RecordList

  /** Slot states as stored in `std::vector<char> deleted`. */
  const EMPTY: int := 0
  const TOMBSTONE: int := 1
  const OCCUPIED: int := 2

  /** `init_size`: the initial and minimum capacity. */
  const INIT_SIZE: nat := 256

  /**
   * A snapshot of the whole container: slot states, slot pointers, the list
   * (ids in order plus their records), and, as proof bookkeeping, the probe
   * step at which each live record sits.
   */
  datatype Table<K, V> = Table(
    states: seq<int>,
    slots: seq<nat>,
    order: seq<nat>,
    store: map<nat, Rec<K, V>>,
    steps: map<nat, nat>)

  // ---------------------------------------------------------------------
  // Probe positions

  /** The slot probed at step `i` from hash value `h`: `(hash + i) % N`. */
  function Pos(h: nat, i: nat, n: nat): (p: nat)
    requires n > 0
    ensures p < n
  {
    (h + i) % n
  }

  lemma MulSign(n: int, d: int)
    requires n > 0
    ensures d >= 1 ==> n * d >= n
    ensures d <= -1 ==> n * d <= -n
  {
    if d >= 1 {
      assert n * d == n + n * (d - 1);
      assert n * (d - 1) >= 0;
    } else if d <= -1 {
      assert n * d == -n - n * (-d - 1);
      assert n * (-d - 1) >= 0;
    }
  }

  /** The remainder of Euclidean division is unique. */
  lemma ModUnique(x: int, q: int, r: int, n: int)
    requires n > 0 && 0 <= r < n && x == n * q + r
    ensures x % n == r
  {
    var q', r' := x / n, x % n;
    var d := q' - q;
    assert n * q' == n * q + n * d;
    assert n * d == r - r';
    MulSign(n, d);
  }

  /** One more probe step moves to the next slot, wrapping at the end. */
  lemma PosNext(h: nat, m: nat, n: nat)
    requires n > 0
    ensures Pos(h, m + 1, n) == (Pos(h, m, n) + 1) % n
  {
    var x := h + m;
    var q, r := x / n, x % n;
    if r + 1 < n {
      ModUnique(x + 1, q, r + 1, n);
      ModUnique(r + 1, 0, r + 1, n);
    } else {
      ModUnique(x + 1, q + 1, 0, n);
      ModUnique(r + 1, 1, 0, n);
    }
  }

  /** The probe sequence starts at the home slot and comes back to it after n steps. */
  lemma PosWrap(h: nat, n: nat)
    requires n > 0
    ensures Pos(h, n, n) == Pos(h, 0, n) == h % n
  {
    ModUnique(h + n, h / n + 1, h % n, n);
  }

  /** Every slot lies on every probe sequence, within n steps. */
  function StepTo(h: nat, j: nat, n: nat): (e: nat)
    requires n > 0 && j < n
    ensures e < n && Pos(h, e, n) == j
  {
    var r := h % n;
    var e := if r <= j then j - r else j + n - r;
    ModUnique(h + e, if r <= j then h / n else h / n + 1, j, n);
    e
  }

  /** Within one round, different probe steps reach different slots. */
  lemma PosInjective(h: nat, a: nat, b: nat, n: nat)
    requires n > 0 && a < n && b < n && Pos(h, a, n) == Pos(h, b, n)
    ensures a == b
  {
    if a != b {
      var lo, hi := if a < b then a else b, if a < b then b else a;
      var x := h + lo;
      var q, r := x / n, x % n;
      if r + (hi - lo) < n {
        ModUnique(h + hi, q, r + (hi - lo), n);
      } else {
        ModUnique(h + hi, q + 1, r + (hi - lo) - n, n);
      }
    }
  }

  // ---------------------------------------------------------------------
  // Counting occupied slots

  /** The number of OCCUPIED slots. */
  function Count(s: seq<int>): (c: nat)
    ensures c <= |s|
  {
    if s == [] then 0
    else Count(s[..|s| - 1]) + (if s[|s| - 1] == OCCUPIED then 1 else 0)
  }

  lemma {:induction false} CountUpdate(s: seq<int>, j: nat, v: int)
    requires j < |s|
    ensures Count(s[j := v]) ==
      Count(s) - (if s[j] == OCCUPIED then 1 else 0) + (if v == OCCUPIED then 1 else 0)
    decreases |s|
  {
    var n := |s|;
    if j == n - 1 {
      assert s[j := v][..n - 1] == s[..n - 1];
    } else {
      CountUpdate(s[..n - 1], j, v);
      assert s[j := v][..n - 1] == s[..n - 1][j := v];
    }
  }

  lemma {:induction false} CountAll(s: seq<int>)
    requires forall j :: 0 <= j < |s| ==> s[j] == OCCUPIED
    ensures Count(s) == |s|
    decreases |s|
  {
    if s != [] {
      CountAll(s[..|s| - 1]);
    }
  }

  lemma {:induction false} CountNone(s: seq<int>)
    requires forall j :: 0 <= j < |s| ==> s[j] != OCCUPIED
    ensures Count(s) == 0
    decreases |s|
  {
    if s != [] {
      CountNone(s[..|s| - 1]);
    }
  }

  /** A probe sequence that meets OCCUPIED slots only has seen a full table. */
  lemma FullProbe(s: seq<int>, h: nat)
    requires |s| > 0
    requires forall e :: 0 <= e < |s| ==> s[Pos(h, e, |s|)] == OCCUPIED
    ensures Count(s) == |s|
  {
    forall j | 0 <= j < |s| ensures s[j] == OCCUPIED {
      var e := StepTo(h, j, |s|);
    }
    CountAll(s);
  }

  /**
   * While fewer than N slots are OCCUPIED, a probe that has met only OCCUPIED
   * slots for `i` steps has not yet gone round the table: the unbounded
   * placement loop of `reallocate` finds a free slot within N steps.
   */
  lemma FreeSlotAhead(s: seq<int>, h: nat, i: nat)
    requires |s| > 0 && Count(s) < |s| && i <= |s|
    requires forall e :: 0 <= e < i ==> s[Pos(h, e, |s|)] == OCCUPIED
    ensures i < |s|
  {
    if i == |s| {
      FullProbe(s, h);
    }
  }

  // ---------------------------------------------------------------------
  // Well-formedness and the index invariant

  /** What the probe loops need to run: slot states in {0,1,2}, OCCUPIED slots point at live records. */
  ghost predicate Wf<K, V>(t: Table<K, V>)
  {
    && |t.states| > 0
    && |t.slots| == |t.states|
    && (forall j :: 0 <= j < |t.states| ==>
          t.states[j] == EMPTY || t.states[j] == TOMBSTONE || t.states[j] == OCCUPIED)
    && (forall j :: 0 <= j < |t.states| && t.states[j] == OCCUPIED ==> t.slots[j] in t.store)
  }

  /** Slot `s` is OCCUPIED by a record with key `k`. */
  ghost predicate Occupies<K, V>(t: Table<K, V>, s: nat, k: K)
    requires Wf(t) && s < |t.states|
  {
    t.states[s] == OCCUPIED && t.store[t.slots[s]].key == k
  }

  /**
   * Record `id` sits at its probe step `steps[id]` from its home slot, and no
   * slot before it on that probe sequence is EMPTY.
   */
  ghost predicate Placed<K, V>(t: Table<K, V>, hash: K -> nat, id: nat)
    requires |t.states| > 0 && |t.slots| == |t.states| && id in t.store && id in t.steps
  {
    var n, h, d := |t.states|, hash(t.store[id].key), t.steps[id];
    && d < n
    && t.states[Pos(h, d, n)] == OCCUPIED
    && t.slots[Pos(h, d, n)] == id
    && forall e :: 0 <= e < d ==> t.states[Pos(h, e, n)] != EMPTY
  }

  /**
   * The index agrees with the ids in `t.order`: every OCCUPIED slot points at
   * a listed record that sits exactly there, every listed record is placed
   * and reachable from its home slot, and the OCCUPIED slots are as many as
   * the listed records. (`t.order` may be a prefix of the list while
   * `reallocate` re-places the records.)
   */
  ghost predicate SlotsValid<K, V>(t: Table<K, V>, hash: K -> nat)
  {
    && Wf(t)
    && (forall j :: 0 <= j < |t.states| && t.states[j] == OCCUPIED ==>
          && t.slots[j] in t.order
          && t.slots[j] in t.steps
          && Pos(hash(t.store[t.slots[j]].key), t.steps[t.slots[j]], |t.states|) == j)
    && (forall id :: id in t.order ==> id in t.store && id in t.steps && Placed(t, hash, id))
    && Count(t.states) == |t.order|
  }

  /** The index consistency invariant of the container. */
  ghost predicate IndexValid<K, V>(t: Table<K, V>, hash: K -> nat)
  {
    SlotsValid(t, hash) && StoreOk(t.order, t.store)
  }

  /** No slot is a TOMBSTONE (a fresh or just reallocated table). */
  ghost predicate NoTombstones(states: seq<int>)
  {
    forall j :: 0 <= j < |states| ==> states[j] != TOMBSTONE
  }

  /** OCCUPIED slots are exactly one per listed record, so no more than N. */
  lemma ListFits<K, V>(t: Table<K, V>, hash: K -> nat)
    requires SlotsValid(t, hash)
    ensures |t.order| <= |t.states|
  {
  }

  /**
   * A table of EMPTY slots (a freshly sized `deleted`) indexes the empty list,
   * whatever `table` holds.
   */
  lemma EmptyTable<K, V>(t: Table<K, V>, hash: K -> nat)
    requires |t.states| > 0 && |t.slots| == |t.states| && t.order == []
    requires forall j :: 0 <= j < |t.states| ==> t.states[j] == EMPTY
    ensures SlotsValid(t, hash) && NoTombstones(t.states)
    ensures t.store == map[] ==> IndexValid(t, hash)
  {
    CountNone(t.states);
  }

  // ---------------------------------------------------------------------
  // Lookup: the probe loop of find, erase, at and operator[]

  /** How a lookup probe ends: a matching OCCUPIED slot, an EMPTY slot, or N probes. */
  datatype Lookup = Hit(step: nat) | Miss(step: nat) | Exhausted

  function LookupEnd(r: Lookup, n: nat): nat
  {
    if r.Exhausted? then n else r.step
  }

  /**
   * The lookup probe from step `i`: OCCUPIED with the key is a hit, EMPTY ends
   * the search, TOMBSTONE and other keys are skipped.
   */
  ghost function LookupFrom<K, V>(t: Table<K, V>, h: nat, k: K, i: nat): (r: Lookup)
    requires Wf(t)
    ensures r.Hit? ==> i <= r.step < |t.states| && Occupies(t, Pos(h, r.step, |t.states|), k)
    ensures r.Miss? ==> i <= r.step < |t.states| && t.states[Pos(h, r.step, |t.states|)] == EMPTY
    ensures forall e :: i <= e < LookupEnd(r, |t.states|) ==>
              t.states[Pos(h, e, |t.states|)] != EMPTY && !Occupies(t, Pos(h, e, |t.states|), k)
    decreases |t.states| - i
  {
    var n := |t.states|;
    if i >= n then Exhausted
    else
      var s := Pos(h, i, n);
      if t.states[s] == OCCUPIED && t.store[t.slots[s]].key == k then Hit(i)
      else if t.states[s] == EMPTY then Miss(i)
      else LookupFrom(t, h, k, i + 1)
  }

  /** `find(key)`: the id of the record found, or None for `end()`. */
  ghost function FindHandle<K, V>(t: Table<K, V>, hash: K -> nat, k: K): (r: Option<nat>)
    requires Wf(t)
    ensures r.Some? ==> r.value in t.store && t.store[r.value].key == k
  {
    match LookupFrom(t, hash(k), k, 0)
    case Hit(d) => Some(t.slots[Pos(hash(k), d, |t.states|)])
    case _ => None
  }

  /**
   * A lookup for the key of a placed record ends in a hit at or before the
   * record's own step: it cannot miss or run out first. (With a duplicate
   * key earlier on the chain, the hit may be at that other record.)
   */
  lemma {:induction false} LookupReaches<K, V>(t: Table<K, V>, hash: K -> nat, id: nat, i: nat)
    requires SlotsValid(t, hash) && id in t.order && i <= t.steps[id]
    ensures LookupFrom(t, hash(t.store[id].key), t.store[id].key, i).Hit?
    ensures LookupFrom(t, hash(t.store[id].key), t.store[id].key, i).step <= t.steps[id]
    decreases t.steps[id] - i
  {
    var k := t.store[id].key;
    var h, n := hash(k), |t.states|;
    assert Placed(t, hash, id);
    var s := Pos(h, i, n);
    if i < t.steps[id] && !Occupies(t, s, k) {
      assert t.states[s] != EMPTY;
      LookupReaches(t, hash, id, i + 1);
    }
  }

  /**
   * Lookup is sound and complete under the invariant: `find(k)` returns a
   * record with key k, and returns `end()` exactly when no live record has key k.
   */
  lemma FindCorrect<K, V>(t: Table<K, V>, hash: K -> nat, k: K)
    requires IndexValid(t, hash)
    ensures FindHandle(t, hash, k).None? <==> !HasKey(t.store, k)
  {
    if HasKey(t.store, k) {
      var id :| id in t.store && t.store[id].key == k;
      LookupReaches(t, hash, id, 0);
    }
  }

  /** When exactly one live record has key k, `find(k)` returns that record. */
  lemma FindUnique<K, V>(t: Table<K, V>, hash: K -> nat, k: K, id: nat)
    requires IndexValid(t, hash)
    requires id in t.store && t.store[id].key == k
    requires forall other :: other in t.store && t.store[other].key == k ==> other == id
    ensures FindHandle(t, hash, k) == Some(id)
  {
    FindCorrect(t, hash, k);
  }

  // ---------------------------------------------------------------------
  // Placement: the probe loop of insert

  /** How an insert probe ends: a free slot to claim, the key already there, or no room. */
  datatype Placement = Claim(step: nat) | Present(step: nat) | NoRoom

  function PlaceEnd(r: Placement, n: nat): nat
  {
    if r.NoRoom? then n else r.step
  }

  /**
   * The insert probe from step `i`: the first EMPTY or TOMBSTONE slot is
   * claimed, even if the key sits further along the chain; an OCCUPIED slot
   * with the key before that makes insert a no-op.
   */
  ghost function PlaceFrom<K, V>(t: Table<K, V>, h: nat, k: K, i: nat): (r: Placement)
    requires Wf(t)
    ensures r.Claim? ==> i <= r.step < |t.states| && t.states[Pos(h, r.step, |t.states|)] != OCCUPIED
    ensures r.Present? ==> i <= r.step < |t.states| && Occupies(t, Pos(h, r.step, |t.states|), k)
    ensures forall e :: i <= e < PlaceEnd(r, |t.states|) ==>
              t.states[Pos(h, e, |t.states|)] == OCCUPIED && !Occupies(t, Pos(h, e, |t.states|), k)
    decreases |t.states| - i
  {
    var n := |t.states|;
    if i >= n then NoRoom
    else
      var s := Pos(h, i, n);
      if t.states[s] == EMPTY || t.states[s] == TOMBSTONE then Claim(i)
      else if t.store[t.slots[s]].key == k then Present(i)
      else PlaceFrom(t, h, k, i + 1)
  }

  /** Insert is a no-op only for a key that is present. */
  lemma PresentHasKey<K, V>(t: Table<K, V>, hash: K -> nat, k: K)
    requires Wf(t)
    requires PlaceFrom(t, hash(k), k, 0).Present?
    ensures HasKey(t.store, k)
  {
    var s := Pos(hash(k), PlaceFrom(t, hash(k), k, 0).step, |t.states|);
    assert t.slots[s] in t.store && t.store[t.slots[s]].key == k;
  }

  /** While the table has a slot that is not OCCUPIED, insert always finds a slot or the key. */
  lemma PlaceNeverNoRoom<K, V>(t: Table<K, V>, hash: K -> nat, k: K)
    requires SlotsValid(t, hash) && |t.order| < |t.states|
    ensures !PlaceFrom(t, hash(k), k, 0).NoRoom?
  {
    if PlaceFrom(t, hash(k), k, 0).NoRoom? {
      FullProbe(t.states, hash(k));
    }
  }

  /**
   * On a table without TOMBSTONEs insert is a no-op exactly when the key is
   * present (first write wins).
   */
  lemma {:induction false} PlaceOnCleanTable<K, V>(t: Table<K, V>, hash: K -> nat, id: nat, i: nat)
    requires SlotsValid(t, hash) && NoTombstones(t.states)
    requires id in t.order && i <= t.steps[id]
    ensures PlaceFrom(t, hash(t.store[id].key), t.store[id].key, i).Present?
    decreases t.steps[id] - i
  {
    var k := t.store[id].key;
    var h, n := hash(k), |t.states|;
    assert Placed(t, hash, id);
    var s := Pos(h, i, n);
    if i < t.steps[id] && !Occupies(t, s, k) {
      assert t.states[s] != EMPTY && t.states[s] != TOMBSTONE;
      PlaceOnCleanTable(t, hash, id, i + 1);
    }
  }

  lemma CleanInsert<K, V>(t: Table<K, V>, hash: K -> nat, k: K)
    requires IndexValid(t, hash) && NoTombstones(t.states)
    ensures PlaceFrom(t, hash(k), k, 0).Present? <==> HasKey(t.store, k)
  {
    if HasKey(t.store, k) {
      var id :| id in t.store && t.store[id].key == k;
      PlaceOnCleanTable(t, hash, id, 0);
    } else if PlaceFrom(t, hash(k), k, 0).Present? {
      PresentHasKey(t, hash, k);
    }
  }

  /**
   * When a lookup stops at an EMPTY slot, an insert of the same key claims a
   * slot no later on the probe sequence (operator[] then appends a record).
   */
  lemma {:induction false} MissThenClaim<K, V>(t: Table<K, V>, h: nat, k: K, i: nat)
    requires Wf(t) && LookupFrom(t, h, k, i).Miss?
    ensures PlaceFrom(t, h, k, i).Claim?
    ensures PlaceFrom(t, h, k, i).step <= LookupFrom(t, h, k, i).step
    decreases |t.states| - i
  {
    var s := Pos(h, i, |t.states|);
    if t.states[s] == OCCUPIED && t.store[t.slots[s]].key != k {
      MissThenClaim(t, h, k, i + 1);
    }
  }

  // ---------------------------------------------------------------------
  // Transitions and the invariant

  /** The table after record `id` (`rec`) is put in slot Pos(h, d) and appended to the list. */
  function Claimed<K, V>(t: Table<K, V>, s: nat, id: nat, rec: Rec<K, V>, d: nat): Table<K, V>
    requires s < |t.states| && s < |t.slots|
  {
    Table(t.states[s := OCCUPIED], t.slots[s := id], t.order + [id], t.store[id := rec], t.steps[id := d])
  }

  /**
   * Claiming the first free slot of a probe sequence for a record not yet in
   * the list keeps the slots consistent with the extended list.
   */
  lemma ClaimKeeps<K, V>(t: Table<K, V>, hash: K -> nat, id: nat, rec: Rec<K, V>, d: nat)
    requires SlotsValid(t, hash) && id !in t.order
    requires d < |t.states|
    requires forall e :: 0 <= e < d ==> t.states[Pos(hash(rec.key), e, |t.states|)] != EMPTY
    requires t.states[Pos(hash(rec.key), d, |t.states|)] != OCCUPIED
    ensures SlotsValid(Claimed(t, Pos(hash(rec.key), d, |t.states|), id, rec, d), hash)
  {
    var n, h := |t.states|, hash(rec.key);
    var s := Pos(h, d, n);
    var t' := Claimed(t, s, id, rec, d);
    CountUpdate(t.states, s, OCCUPIED);
    assert Wf(t');
    forall j | 0 <= j < n && t'.states[j] == OCCUPIED
      ensures t'.slots[j] in t'.order && t'.slots[j] in t'.steps
      ensures Pos(hash(t'.store[t'.slots[j]].key), t'.steps[t'.slots[j]], n) == j
    {
      if j != s {
        assert t.states[j] == OCCUPIED;
        assert t.slots[j] in t.order;
      }
    }
    forall x | x in t'.order ensures x in t'.store && x in t'.steps && Placed(t', hash, x) {
      if x != id {
        assert x in t.order && Placed(t, hash, x);
        var hx, dx := hash(t.store[x].key), t.steps[x];
        assert Pos(hx, dx, n) != s;
      }
    }
  }

  /**
   * `insert(k, v)` on the snapshot, the new list node getting id `id`: the
   * first slot of the probe sequence that is not OCCUPIED, met before any
   * OCCUPIED slot holding k, is claimed and the record appended to the list;
   * otherwise nothing changes.
   */
  ghost function Inserted<K, V>(t: Table<K, V>, hash: K -> nat, k: K, v: V, id: nat): Table<K, V>
    requires Wf(t)
  {
    match PlaceFrom(t, hash(k), k, 0)
    case Claim(d) => Claimed(t, Pos(hash(k), d, |t.states|), id, Rec(k, v), d)
    case _ => t
  }

  /**
   * insert keeps the index consistent; when it claims a slot the record is
   * appended at the end of the iteration order, otherwise nothing changes;
   * it declines only for a key already present, or when every slot is full.
   */
  lemma InsertSpec<K, V>(t: Table<K, V>, hash: K -> nat, k: K, v: V, id: nat)
    requires IndexValid(t, hash) && id !in t.store
    ensures IndexValid(Inserted(t, hash, k, v, id), hash)
    ensures PlaceFrom(t, hash(k), k, 0).Claim? ==>
              var t' := Inserted(t, hash, k, v, id);
              && t'.order == t.order + [id] && t'.store == t.store[id := Rec(k, v)]
              && Records(t'.order, t'.store) == Records(t.order, t.store) + [Rec(k, v)]
    ensures !PlaceFrom(t, hash(k), k, 0).Claim? ==> Inserted(t, hash, k, v, id) == t
    ensures !HasKey(t.store, k) && |t.order| < |t.states| ==> PlaceFrom(t, hash(k), k, 0).Claim?
    ensures NoTombstones(t.states) ==> NoTombstones(Inserted(t, hash, k, v, id).states)
    ensures forall j :: 0 <= j < |t.states| && Inserted(t, hash, k, v, id).states[j] == TOMBSTONE ==>
              t.states[j] == TOMBSTONE
  {
    match PlaceFrom(t, hash(k), k, 0)
    case Claim(d) =>
      ClaimKeeps(t, hash, id, Rec(k, v), d);
      StoreAppend(t.order, t.store, id, Rec(k, v));
    case Present(_) =>
      PresentHasKey(t, hash, k);
    case NoRoom =>
      if |t.order| < |t.states| {
        PlaceNeverNoRoom(t, hash, k);
      }
  }

  /**
   * The constructors' insertion loop: on a table without TOMBSTONEs holding
   * `Dedup(items[..p])`, inserting `items[p]` leaves `Dedup(items[..p + 1])`.
   */
  lemma InsertNext<K(!new), V>(t: Table<K, V>, hash: K -> nat, items: seq<Rec<K, V>>, p: nat, id: nat)
    requires IndexValid(t, hash) && NoTombstones(t.states) && id !in t.store
    requires p < |items| && |t.order| < |t.states|
    requires Records(t.order, t.store) == Dedup(items[..p])
    ensures var t' := Inserted(t, hash, items[p].key, items[p].value, id);
            Records(t'.order, t'.store) == Dedup(items[..p + 1])
  {
    var k, v := items[p].key, items[p].value;
    InsertSpec(t, hash, k, v, id);
    CleanInsert(t, hash, k);
    KeyInRecords(t.order, t.store, k);
    assert items[..p + 1][..p] == items[..p];
    if HasKey(t.store, k) {
      assert KeyIn(items[..p], k);
      assert Dedup(items[..p + 1]) == Dedup(items[..p]);
    } else {
      assert !KeyIn(items[..p], k);
      assert Dedup(items[..p + 1]) == Dedup(items[..p]) + [items[p]];
    }
  }

  /**
   * After inserting a key no live record has, find returns the new record,
   * on any consistent index over the resulting list (also after a resize).
   */
  lemma InsertThenFind<K, V>(t: Table<K, V>, t': Table<K, V>, hash: K -> nat, k: K, v: V, id: nat)
    requires IndexValid(t', hash) && !HasKey(t.store, k)
    requires t'.store == t.store[id := Rec(k, v)]
    ensures FindHandle(t', hash, k) == Some(id) && t'.store[id].value == v
  {
    assert forall x :: x in t.store ==> t.store[x].key != k;
    FindUnique(t', hash, k, id);
  }

  /**
   * insert claims the first free slot before it looks further along the
   * chain: with a TOMBSTONE ahead of the only record with key k, insert(k, v)
   * appends a second record with key k.
   */
  lemma TombstoneAdmitsDuplicate<K, V>(t: Table<K, V>, hash: K -> nat, old_id: nat, d: nat, v: V, id: nat)
    requires IndexValid(t, hash) && old_id in t.order && id !in t.store
    requires var k := t.store[old_id].key;
             && (forall other :: other in t.store && t.store[other].key == k ==> other == old_id)
             && d < t.steps[old_id] && t.states[Pos(hash(k), d, |t.states|)] == TOMBSTONE
    ensures var k := t.store[old_id].key;
            var t' := Inserted(t, hash, k, v, id);
            && PlaceFrom(t, hash(k), k, 0).Claim?
            && old_id in t'.store && id in t'.store && old_id != id
            && t'.store[old_id].key == k && t'.store[id].key == k
  {
    var k, n := t.store[old_id].key, |t.states|;
    var h := hash(k);
    assert Placed(t, hash, old_id);
    var r := PlaceFrom(t, h, k, 0);
    if r.Present? {
      var s := Pos(h, r.step, n);
      assert t.slots[s] == old_id;
      assert Pos(h, t.steps[old_id], n) == s;
      PosInjective(h, r.step, t.steps[old_id], n);
    }
    InsertSpec(t, hash, k, v, id);
  }

  /** A consistent table whose TOMBSTONE sits ahead of the only record with key 7 meets the premise above. */
  lemma TombstoneDuplicateWitness()
    ensures var t := Table([TOMBSTONE, OCCUPIED], [0, 5], [5], map[5 := Rec(7, 0)], map[5 := 1]);
            var hash := (x: int) => 0;
            && IndexValid(t, hash)
            && PlaceFrom(t, hash(7), 7, 0).Claim?
            && Inserted(t, hash, 7, 1, 6).store == map[5 := Rec(7, 0), 6 := Rec(7, 1)]
  {
    var t := Table([TOMBSTONE, OCCUPIED], [0, 5], [5], map[5 := Rec(7, 0)], map[5 := 1]);
    var hash := (x: int) => 0;
    assert Placed(t, hash, 5);
    assert Count(t.states) == 1 by {
      assert t.states[..1] == [TOMBSTONE];
      assert t.states[..1][..0] == [];
    }
    assert IndexValid(t, hash);
    TombstoneAdmitsDuplicate(t, hash, 5, 0, 1, 6);
  }

  /** The table after the record in OCCUPIED slot `s` is erased: TOMBSTONE, unlinked. */
  function Vacated<K, V>(t: Table<K, V>, s: nat): Table<K, V>
    requires s < |t.states| && s < |t.slots|
  {
    var id := t.slots[s];
    Table(t.states[s := TOMBSTONE], t.slots, Without(t.order, id), t.store - {id}, t.steps)
  }

  /** Erasing the record of an OCCUPIED slot keeps the index consistent. */
  lemma VacateKeeps<K, V>(t: Table<K, V>, hash: K -> nat, s: nat)
    requires IndexValid(t, hash) && s < |t.states| && t.states[s] == OCCUPIED
    ensures IndexValid(Vacated(t, s), hash)
  {
    var n, id := |t.states|, t.slots[s];
    var t' := Vacated(t, s);
    CountUpdate(t.states, s, TOMBSTONE);
    assert Wf(t');
    forall j | 0 <= j < n && t'.states[j] == OCCUPIED
      ensures t'.slots[j] in t'.order && t'.slots[j] in t'.steps
      ensures Pos(hash(t'.store[t'.slots[j]].key), t'.steps[t'.slots[j]], n) == j
    {
      assert t.states[j] == OCCUPIED && j != s;
      assert t.slots[j] != id;
    }
    forall x | x in t'.order ensures x in t'.store && x in t'.steps && Placed(t', hash, x) {
      assert x in t.order && Placed(t, hash, x);
    }
  }

  /**
   * `erase(k)` on the snapshot: the record at the first OCCUPIED slot with
   * key k met before an EMPTY slot is vacated; otherwise nothing changes.
   */
  ghost function Erased<K, V>(t: Table<K, V>, hash: K -> nat, k: K): Table<K, V>
    requires Wf(t)
  {
    match LookupFrom(t, hash(k), k, 0)
    case Hit(d) => Vacated(t, Pos(hash(k), d, |t.states|))
    case _ => t
  }

  /**
   * erase removes exactly the record find returns: with find at `end()`
   * nothing changes; otherwise that one record leaves the list and its slot,
   * alone of all slots, becomes a TOMBSTONE. The index stays consistent.
   */
  lemma EraseSpec<K, V>(t: Table<K, V>, hash: K -> nat, k: K)
    requires IndexValid(t, hash)
    ensures IndexValid(Erased(t, hash, k), hash)
    ensures FindHandle(t, hash, k).None? ==> Erased(t, hash, k) == t
    ensures FindHandle(t, hash, k).Some? ==>
              var id, t' := FindHandle(t, hash, k).value, Erased(t, hash, k);
              && t'.order == Without(t.order, id) && t'.store == t.store - {id}
              && |t'.order| == |t.order| - 1
              && (exists i :: 0 <= i < |t.order| && t.order[i] == id && t'.order == t.order[..i] + t.order[i + 1..])
              && t'.slots == t.slots && |t'.states| == |t.states|
              && (forall j :: 0 <= j < |t.states| && t'.states[j] != t.states[j] ==>
                    t.states[j] == OCCUPIED && t.slots[j] == id && t'.states[j] == TOMBSTONE)
  {
    match LookupFrom(t, hash(k), k, 0)
    case Hit(d) =>
      VacateKeeps(t, hash, Pos(hash(k), d, |t.states|));
      WithoutKeepsOrder(t.order, FindHandle(t, hash, k).value);
    case _ =>
  }

  /**
   * With at most one live record per key, erase is idempotent: a second
   * erase of k finds nothing to remove. `EraseRemovesOneDuplicate` is the
   * converse.
   */
  lemma EraseIdempotent<K, V>(t: Table<K, V>, hash: K -> nat, k: K)
    requires IndexValid(t, hash)
    requires forall a, b :: a in t.store && b in t.store && t.store[a].key == k && t.store[b].key == k ==> a == b
    ensures Erased(Erased(t, hash, k), hash, k) == Erased(t, hash, k)
  {
    EraseSpec(t, hash, k);
    var t' := Erased(t, hash, k);
    FindCorrect(t, hash, k);
    FindCorrect(t', hash, k);
    if FindHandle(t, hash, k).Some? {
      var id := FindHandle(t, hash, k).value;
      assert !HasKey(t'.store, k);
    }
  }

  /**
   * With two live records of key k (let in through a TOMBSTONE), one erase
   * removes only the one `find` reaches first, so a second erase of k
   * removes the other: erase is then not idempotent.
   */
  lemma EraseRemovesOneDuplicate<K, V>(t: Table<K, V>, hash: K -> nat, k: K, a: nat, b: nat)
    requires IndexValid(t, hash)
    requires a in t.store && b in t.store && a != b && t.store[a].key == k && t.store[b].key == k
    ensures var t' := Erased(t, hash, k);
            && HasKey(t'.store, k)
            && |Erased(t', hash, k).order| == |t'.order| - 1
            && Erased(t', hash, k) != t'
  {
    var id := EraseHit(t, hash, k);
    var t' := Erased(t, hash, k);
    var other := if id == a then b else a;
    assert other in t'.store && t'.store[other].key == k;
    var id' := EraseHit(t', hash, k);
  }

  /** erase of a present key removes one record of that key and shortens the list by one. */
  lemma EraseHit<K, V>(t: Table<K, V>, hash: K -> nat, k: K) returns (id: nat)
    requires IndexValid(t, hash) && HasKey(t.store, k)
    ensures id in t.store && t.store[id].key == k
    ensures IndexValid(Erased(t, hash, k), hash)
    ensures Erased(t, hash, k).store == t.store - {id}
    ensures |Erased(t, hash, k).order| == |t.order| - 1
  {
    FindCorrect(t, hash, k);
    EraseSpec(t, hash, k);
    id := FindHandle(t, hash, k).value;
  }

  /** The two-slot table of the duplicate: both slots hold key 7, erase of 7 is not idempotent. */
  lemma DuplicateEraseWitness()
    ensures var t := Table([OCCUPIED, OCCUPIED], [6, 5], [5, 6], map[5 := Rec(7, 0), 6 := Rec(7, 0)], map[5 := 1, 6 := 0]);
            var hash := (x: int) => 0;
            && IndexValid(t, hash)
            && Erased(Erased(t, hash, 7), hash, 7) != Erased(t, hash, 7)
  {
    var t := Table([OCCUPIED, OCCUPIED], [6, 5], [5, 6], map[5 := Rec(7, 0), 6 := Rec(7, 0)], map[5 := 1, 6 := 0]);
    var hash := (x: int) => 0;
    assert Placed(t, hash, 5) && Placed(t, hash, 6);
    assert Count(t.states) == 2 by {
      assert t.states[..1] == [OCCUPIED];
      assert t.states[..1][..0] == [];
    }
    assert IndexValid(t, hash);
    EraseRemovesOneDuplicate(t, hash, 7, 5, 6);
  }

  // ---------------------------------------------------------------------
  // clear(): the walk from each record's home slot

  /** Every slot zeroed by the walks so far (and not EMPTY before) is followed by an EMPTY slot. */
  ghost predicate ZeroClosed(orig: seq<int>, cur: seq<int>)
    requires |orig| == |cur| > 0
  {
    forall j :: 0 <= j < |cur| && cur[j] == EMPTY && orig[j] != EMPTY ==> cur[(j + 1) % |cur|] == EMPTY
  }

  /** The walks have zeroed record `id`'s probe sequence from its home slot up to its own slot. */
  ghost predicate Cleared<K, V>(t: Table<K, V>, hash: K -> nat, id: nat, cur: seq<int>)
    requires |cur| > 0 && id in t.store && id in t.steps
  {
    forall e :: 0 <= e <= t.steps[id] ==> cur[Pos(hash(t.store[id].key), e, |cur|)] == EMPTY
  }

  /** An EMPTY slot reached by the walks spreads forward through slots that were not EMPTY. */
  lemma {:induction false} ZeroSpreads(orig: seq<int>, cur: seq<int>, h: nat, e: nat, d: nat)
    requires |orig| == |cur| > 0 && ZeroClosed(orig, cur)
    requires e <= d && cur[Pos(h, e, |cur|)] == EMPTY
    requires forall x :: e <= x < d ==> orig[Pos(h, x, |cur|)] != EMPTY
    ensures forall x :: e <= x <= d ==> cur[Pos(h, x, |cur|)] == EMPTY
    decreases d - e
  {
    if e < d {
      PosNext(h, e, |cur|);
      ZeroSpreads(orig, cur, h, e + 1, d);
    }
  }

  /**
   * A walk from a record's home slot that zeroed `m` slots and stopped at an
   * EMPTY slot has cleared that record's slot (it cannot stop short of it).
   */
  lemma WalkCovers<K, V>(t: Table<K, V>, hash: K -> nat, id: nat, cur: seq<int>, m: nat)
    requires SlotsValid(t, hash) && id in t.order && |cur| == |t.states|
    requires ZeroClosed(t.states, cur)
    requires cur[Pos(hash(t.store[id].key), m, |cur|)] == EMPTY
    requires forall e :: 0 <= e < m ==> cur[Pos(hash(t.store[id].key), e, |cur|)] == EMPTY
    ensures Cleared(t, hash, id, cur)
  {
    assert Placed(t, hash, id);
    var h, d := hash(t.store[id].key), t.steps[id];
    if m <= d {
      ZeroSpreads(t.states, cur, h, m, d);
    }
  }

  /**
   * After the walks of clear(), no slot is OCCUPIED: each is EMPTY or an
   * untouched TOMBSTONE, and the empty index is consistent.
   */
  lemma ClearComplete<K, V>(t: Table<K, V>, hash: K -> nat, cur: seq<int>)
    requires IndexValid(t, hash) && |cur| == |t.states|
    requires forall j :: 0 <= j < |cur| ==> cur[j] == EMPTY || cur[j] == t.states[j]
    requires forall q :: 0 <= q < |t.order| ==> Cleared(t, hash, t.order[q], cur)
    ensures forall id :: id in t.order ==> Cleared(t, hash, id, cur)
    ensures forall j :: 0 <= j < |cur| ==> cur[j] == EMPTY || (cur[j] == TOMBSTONE && t.states[j] == TOMBSTONE)
    ensures var e: Table<K, V> := Table(cur, t.slots, [], map[], map[]); IndexValid(e, hash)
  {
    forall id | id in t.order ensures Cleared(t, hash, id, cur) {
      var q :| 0 <= q < |t.order| && t.order[q] == id;
    }
    forall j | 0 <= j < |cur| ensures cur[j] == EMPTY || (cur[j] == TOMBSTONE && t.states[j] == TOMBSTONE) {
      if t.states[j] == OCCUPIED {
        var id := t.slots[j];
        assert id in t.order;
        assert Cleared(t, hash, id, cur);
        assert cur[Pos(hash(t.store[id].key), t.steps[id], |cur|)] == EMPTY;
      }
    }
    CountNone(cur);
  }

  /**
   * Slot `j` is among the first `m` slots of the probe sequence from `h`
   * (the step that reaches it is unique within N steps, by `PosInjective`).
   */
  ghost predicate OnWalk(h: nat, m: nat, n: nat, j: nat)
    requires n > 0
  {
    j < n && StepTo(h, j, n) < m
  }

  /**
   * Slot `j` lies in the run of non-EMPTY slots that starts at the home slot
   * of `h`: every slot from the home slot up to `j` is not EMPTY in `s`.
   */
  ghost predicate InRun(s: seq<int>, h: nat, j: nat)
    requires |s| > 0
  {
    exists e :: 0 <= e < |s| && Pos(h, e, |s|) == j && forall x :: 0 <= x <= e ==> s[Pos(h, x, |s|)] != EMPTY
  }

  /** Slot `j` lies in the run from the home slot of one of the first `p` records. */
  ghost predicate Swept<K, V>(s: seq<int>, recs: seq<Rec<K, V>>, hash: K -> nat, p: nat, j: nat)
    requires |s| > 0 && p <= |recs|
  {
    exists q :: 0 <= q < p && InRun(s, hash(recs[q].key), j)
  }

  /**
   * The walks of the first `p` records have zeroed exactly the slots of
   * their runs; every other slot has its state from before clear().
   */
  ghost predicate SweptExactly<K, V>(orig: seq<int>, cur: seq<int>, recs: seq<Rec<K, V>>, hash: K -> nat, p: nat)
    requires |orig| == |cur| > 0 && p <= |recs|
  {
    forall j :: 0 <= j < |orig| ==> cur[j] == if Swept(orig, recs, hash, p, j) then EMPTY else orig[j]
  }

  /**
   * Contrapositive of `ZeroSpreads`: a walk that meets an EMPTY slot and,
   * further on, a slot that is not EMPTY has passed a slot that was EMPTY
   * before clear() began.
   */
  lemma {:induction false} ZeroBlocks(orig: seq<int>, cur: seq<int>, h: nat, m: nat, e: nat)
    requires |orig| == |cur| > 0 && ZeroClosed(orig, cur)
    requires m <= e && cur[Pos(h, m, |cur|)] == EMPTY && cur[Pos(h, e, |cur|)] != EMPTY
    ensures exists x :: m <= x < e && orig[Pos(h, x, |cur|)] == EMPTY
    decreases e - m
  {
    if orig[Pos(h, m, |cur|)] != EMPTY {
      PosNext(h, m, |cur|);
      ZeroBlocks(orig, cur, h, m + 1, e);
    }
  }

  /**
   * One walk of clear() with `p` walks done: when the walks so far have
   * zeroed exactly the runs of the first `p` records, and walk `p` zeroes
   * the `m` slots before the first EMPTY one, then the walks have zeroed
   * exactly the runs of the first `p + 1` records. Every other slot keeps
   * the state it had before clear().
   */
  lemma SweepStep<K, V>(orig: seq<int>, before: seq<int>, after: seq<int>, recs: seq<Rec<K, V>>,
                        hash: K -> nat, p: nat, m: nat)
    requires |orig| == |before| == |after| > 0 && p < |recs|
    requires SweptExactly(orig, before, recs, hash, p) && ZeroClosed(orig, before)
    requires var h, n := hash(recs[p].key), |orig|;
             && m <= n && (forall e :: 0 <= e < m ==> before[Pos(h, e, n)] != EMPTY)
             && (m < n ==> before[Pos(h, m, n)] == EMPTY)
             && (forall j :: 0 <= j < n ==> after[j] == if OnWalk(h, m, n, j) then EMPTY else before[j])
    ensures SweptExactly(orig, after, recs, hash, p + 1)
  {
    var h, n := hash(recs[p].key), |orig|;
    forall j | 0 <= j < n
      ensures after[j] == if Swept(orig, recs, hash, p + 1, j) then EMPTY else orig[j]
    {
      if OnWalk(h, m, n, j) {
        var e := StepTo(h, j, n);
        forall x | 0 <= x <= e ensures orig[Pos(h, x, n)] != EMPTY {
          assert before[Pos(h, x, n)] != EMPTY;
        }
        assert InRun(orig, h, j);
      } else if !Swept(orig, recs, hash, p, j) {
        forall e | 0 <= e < n && Pos(h, e, n) == j
          ensures exists x :: 0 <= x <= e && orig[Pos(h, x, n)] == EMPTY
        {
          if orig[j] != EMPTY {
            PosInjective(h, e, StepTo(h, j, n), n);
            ZeroBlocks(orig, before, h, m, e);
          }
        }
        assert !InRun(orig, h, j);
      }
    }
  }

  /**
   * What walk `p` of clear() adds: from the state `before` it, the walk
   * that zeroed the `m` slots before the first EMPTY one gives `after`, in
   * which the records up to `p` are cleared and exactly the runs of the
   * first `p + 1` records are zeroed.
   */
  lemma SweepAdvance<K, V>(t: Table<K, V>, hash: K -> nat, recs: seq<Rec<K, V>>, p: nat,
                           before: seq<int>, after: seq<int>, m: nat)
    requires SlotsValid(t, hash) && |before| == |after| == |t.states| > 0
    requires p < |t.order| && recs == Records(t.order, t.store)
    requires ZeroClosed(t.states, before) && ZeroClosed(t.states, after)
    requires forall q :: 0 <= q < p ==> Cleared(t, hash, t.order[q], before)
    requires SweptExactly(t.states, before, recs, hash, p)
    requires var h, n := hash(recs[p].key), |before|;
             && m <= n && after[Pos(h, m, n)] == EMPTY
             && (forall e :: 0 <= e < m ==> after[Pos(h, e, n)] == EMPTY)
             && (forall e :: 0 <= e < m ==> before[Pos(h, e, n)] != EMPTY)
             && (m < n ==> before[Pos(h, m, n)] == EMPTY)
             && (forall j :: 0 <= j < n ==> after[j] == if OnWalk(h, m, n, j) then EMPTY else before[j])
    ensures forall q :: 0 <= q <= p ==> Cleared(t, hash, t.order[q], after)
    ensures SweptExactly(t.states, after, recs, hash, p + 1)
  {
    SweepStep(t.states, before, after, recs, hash, p, m);
    assert recs[p] == t.store[t.order[p]];
    ClearedAdvance(t, hash, p, before, after, m);
  }

  /** The walk of record `p` keeps the earlier records cleared and clears record `p`. */
  lemma ClearedAdvance<K, V>(t: Table<K, V>, hash: K -> nat, p: nat, before: seq<int>, after: seq<int>, m: nat)
    requires SlotsValid(t, hash) && |before| == |after| == |t.states| > 0 && p < |t.order|
    requires ZeroClosed(t.states, after)
    requires forall q :: 0 <= q < p ==> Cleared(t, hash, t.order[q], before)
    requires forall j :: 0 <= j < |after| && before[j] == EMPTY ==> after[j] == EMPTY
    requires var h, n := hash(t.store[t.order[p]].key), |before|;
             && after[Pos(h, m, n)] == EMPTY && (forall e :: 0 <= e < m ==> after[Pos(h, e, n)] == EMPTY)
    ensures forall q :: 0 <= q <= p ==> Cleared(t, hash, t.order[q], after)
  {
    forall q | 0 <= q < p ensures Cleared(t, hash, t.order[q], after) {
      assert Cleared(t, hash, t.order[q], before);
    }
    WalkCovers(t, hash, t.order[p], after, m);
  }

  // ---------------------------------------------------------------------
  // reallocate(): the layout it builds

  /** The slots reallocate starts from: all EMPTY, pointing nowhere in particular. */
  function FreshLayout(n: nat): (r: (seq<int>, seq<nat>))
    ensures |r.0| == |r.1| == n
    ensures forall j :: 0 <= j < n ==> r.0[j] == EMPTY
  {
    (seq(n, _ => EMPTY), seq(n, _ => 0))
  }

  /** The first probe step from step `i` of hash `h` whose slot is not OCCUPIED, or `N` if none is. */
  function FirstFree(s: seq<int>, h: nat, i: nat): (d: nat)
    requires |s| > 0 && i <= |s|
    ensures i <= d <= |s|
    ensures d < |s| ==> s[Pos(h, d, |s|)] != OCCUPIED
    ensures forall e :: i <= e < d ==> s[Pos(h, e, |s|)] == OCCUPIED
    decreases |s| - i
  {
    if i == |s| then |s|
    else if s[Pos(h, i, |s|)] != OCCUPIED then i
    else FirstFree(s, h, i + 1)
  }

  /**
   * One record placed as reallocate places it: at the first slot of its
   * probe sequence that is not OCCUPIED, which then points at it.
   */
  function PlaceOne(layout: (seq<int>, seq<nat>), id: nat, h: nat): (r: (seq<int>, seq<nat>))
    requires |layout.0| == |layout.1| > 0
    ensures |r.0| == |r.1| == |layout.0|
  {
    var (states, slots) := layout;
    var d := FirstFree(states, h, 0);
    if d == |states| then layout
    else (states[Pos(h, d, |states|) := OCCUPIED], slots[Pos(h, d, |states|) := id])
  }

  /** The slot states and pointers after the records `ids` are placed one by one, in order, into `layout`. */
  function Relocated<K, V>(layout: (seq<int>, seq<nat>), ids: seq<nat>, store: map<nat, Rec<K, V>>, hash: K -> nat): (r: (seq<int>, seq<nat>))
    requires |layout.0| == |layout.1| > 0
    requires forall id :: id in ids ==> id in store
    ensures |r.0| == |r.1| == |layout.0|
    decreases |ids|
  {
    if ids == [] then layout
    else
      var id := ids[|ids| - 1];
      PlaceOne(Relocated(layout, ids[..|ids| - 1], store, hash), id, hash(store[id].key))
  }

  /** Placing the records `ids[..p + 1]` is placing `ids[..p]`, then `ids[p]`. */
  lemma RelocatedStep<K, V>(layout: (seq<int>, seq<nat>), ids: seq<nat>, p: nat, store: map<nat, Rec<K, V>>, hash: K -> nat)
    requires |layout.0| == |layout.1| > 0 && p < |ids|
    requires forall id :: id in ids ==> id in store
    ensures Relocated(layout, ids[..p + 1], store, hash)
         == PlaceOne(Relocated(layout, ids[..p], store, hash), ids[p], hash(store[ids[p]].key))
  {
    assert ids[..p + 1][..p] == ids[..p];
  }

  // ---------------------------------------------------------------------
  // check(): the resize policy

  /** The capacity check() chooses for the list count it sees (the count BEFORE ++table_size). */
  function NewCapacity(count: nat, n: nat): nat
  {
    if count * 2 > n then n * 2
    else if count > INIT_SIZE && count * 7 < n then n / 2
    else n
  }

  /**
   * The policy keeps the capacity at least 256 and the count at most N/2 + 1
   * after every insert, and leaves room for the new record and the next one.
   */
  lemma CapacityPolicy(count: nat, n: nat)
    requires n >= INIT_SIZE && 2 * count <= n + 2
    ensures NewCapacity(count, n) >= INIT_SIZE
    ensures 2 * (count + 1) <= NewCapacity(count, n) + 2
    ensures count + 1 < NewCapacity(count, n)
  {
  }

  /**
   * Because check() sees the count before the increment, the bound is not
   * 2 * size <= N: the insert that fills a table to exactly half keeps N,
   * and leaves 2 * size = N + 2, where the count after the increment would
   * have doubled N.
   */
  lemma PreIncrementBound(count: nat, n: nat)
    requires n >= INIT_SIZE && 2 * count == n
    ensures NewCapacity(count, n) == n
    ensures 2 * (count + 1) == n + 2
    ensures NewCapacity(count + 1, n) == 2 * n
  {
  }
}
