/**
 * The record store of the hash map: the `std::list` of key/value pairs kept in
 * insertion order. A list node is named by a record id (a `nat` that is never
 * reused), so the list itself is the sequence of ids `order` together with the
 * map `store` from each live id to its record. Ids are the model's iterators:
 * they stay valid until the record they name is erased.
 */
module RecordList {

  datatype Option<T> = None | Some(value: T)

  /** One node of the list: an immutable key with its value. */
  datatype Rec<K, V> = Rec(key: K, value: V)

  /** No id occurs twice in the list. */
  ghost predicate Distinct(s: seq<nat>)
  {
    forall i, j :: 0 <= i < j < |s| ==> s[i] != s[j]
  }

  /** The list holds exactly the live ids, each once. */
  ghost predicate StoreOk<K, V>(order: seq<nat>, store: map<nat, Rec<K, V>>)
  {
    && Distinct(order)
    && (forall id :: id in order ==> id in store)
    && (forall id :: id in store ==> id in order)
  }

  /** The records in list (iteration) order. */
  function Records<K, V>(order: seq<nat>, store: map<nat, Rec<K, V>>): (r: seq<Rec<K, V>>)
    requires forall id :: id in order ==> id in store
    ensures |r| == |order|
    ensures forall i :: 0 <= i < |order| ==> r[i] == store[order[i]]
  {
    seq(|order|, i requires 0 <= i < |order| => store[order[i]])
  }

  /** Some record of `items` has key `k`. */
  ghost predicate KeyIn<K, V>(items: seq<Rec<K, V>>, k: K)
  {
    exists i :: 0 <= i < |items| && items[i].key == k
  }

  /** Some live record of the store has key `k`. */
  ghost predicate HasKey<K, V>(store: map<nat, Rec<K, V>>, k: K)
  {
    exists id :: id in store && store[id].key == k
  }

  /** A key occurs in the list exactly when some live record has it. */
  lemma KeyInRecords<K, V>(order: seq<nat>, store: map<nat, Rec<K, V>>, k: K)
    requires StoreOk(order, store)
    ensures KeyIn(Records(order, store), k) <==> HasKey(store, k)
  {
    var r := Records(order, store);
    if HasKey(store, k) {
      var id :| id in store && store[id].key == k;
      var i :| 0 <= i < |order| && order[i] == id;
      assert r[i].key == k;
    }
  }

  /** `l.push_back(rec)` under a new id: the list stays well formed and gains `rec` at its end. */
  lemma StoreAppend<K, V>(order: seq<nat>, store: map<nat, Rec<K, V>>, id: nat, rec: Rec<K, V>)
    requires StoreOk(order, store) && id !in store
    ensures StoreOk(order + [id], store[id := rec])
    ensures Records(order + [id], store[id := rec]) == Records(order, store) + [rec]
  {
    assert id !in order;
    var s := order + [id];
    forall i, j | 0 <= i < j < |s| ensures s[i] != s[j] {
      if j == |order| { assert s[i] == order[i] && s[i] in order; }
    }
  }

  /** The tail of a list without repeats has none, and lacks the head. */
  lemma TailDistinct(s: seq<nat>)
    requires |s| > 0
    ensures Distinct(s) ==> Distinct(s[1..]) && s[0] !in s[1..]
  {
    if Distinct(s) {
      forall i, j | 0 <= i < j < |s[1..]| ensures s[1..][i] != s[1..][j] {
        assert s[1..][i] == s[i + 1] && s[1..][j] == s[j + 1];
      }
    }
  }

  /** Putting a new id in front of a list without repeats makes none. */
  lemma ConsDistinct(a: nat, r: seq<nat>)
    ensures Distinct(r) && a !in r ==> Distinct([a] + r)
  {
    if Distinct(r) && a !in r {
      var w := [a] + r;
      forall i, j | 0 <= i < j < |w| ensures w[i] != w[j] {
        if i == 0 {
          assert w[j] == r[j - 1] && w[j] in r;
        } else {
          assert w[i] == r[i - 1] && w[j] == r[j - 1];
        }
      }
    }
  }

  /** Unlinking node `i + 1` of `s` is unlinking node `i` of its tail, behind the head. */
  lemma ConsSplit(s: seq<nat>, i: nat, rest: seq<nat>)
    requires i + 1 < |s| && rest == s[1..][..i] + s[1..][i + 1..]
    ensures [s[0]] + rest == s[..i + 1] + s[i + 2..]
  {
    assert s[1..][..i] == s[1..i + 1];
    assert s[1..][i + 1..] == s[i + 2..];
    assert [s[0]] + s[1..i + 1] == s[..i + 1];
  }

  /**
   * `l.erase(it)`: the list with the node `x` unlinked; every other node keeps
   * its place relative to the others.
   */
  function Without(s: seq<nat>, x: nat): (r: seq<nat>)
    ensures forall y :: y in r <==> y in s && y != x
    ensures Distinct(s) ==> Distinct(r)
    ensures Distinct(s) && x in s ==> |r| == |s| - 1
    ensures x !in s ==> r == s
  {
    if s == [] then []
    else if s[0] == x then
      TailDistinct(s);
      Without(s[1..], x)
    else
      var rest := Without(s[1..], x);
      TailDistinct(s);
      ConsDistinct(s[0], rest);
      [s[0]] + rest
  }

  /** The nodes that stay after `l.erase(it)` keep their order: the list is cut at `x` and rejoined. */
  lemma {:induction false} WithoutKeepsOrder(s: seq<nat>, x: nat)
    requires Distinct(s) && x in s
    ensures exists i :: 0 <= i < |s| && s[i] == x && Without(s, x) == s[..i] + s[i + 1..]
  {
    TailDistinct(s);
    if s[0] == x {
      assert s[..0] + s[1..] == s[1..];
    } else {
      assert x in s[1..];
      WithoutKeepsOrder(s[1..], x);
      var i' :| 0 <= i' < |s[1..]| && s[1..][i'] == x && Without(s[1..], x) == s[1..][..i'] + s[1..][i' + 1..];
      ConsSplit(s, i', Without(s[1..], x));
      assert s[i' + 1] == x;
    }
  }

  /**
   * The records a fresh, tombstone-free table keeps when `items` are inserted
   * one after another: each key with the value of its FIRST occurrence, in the
   * order of first occurrences (later repeats are ignored by insert).
   */
  ghost function Dedup<K(!new), V>(items: seq<Rec<K, V>>): (r: seq<Rec<K, V>>)
    ensures |r| <= |items|
    ensures forall k :: KeyIn(r, k) <==> KeyIn(items, k)
    ensures forall i, j :: 0 <= i < j < |r| ==> r[i].key != r[j].key
    decreases |items|
  {
    if items == [] then []
    else
      var init, last := items[..|items| - 1], items[|items| - 1];
      var d := Dedup(init);
      assert forall k :: KeyIn(items, k) <==> KeyIn(init, k) || last.key == k by {
        forall k | KeyIn(items, k) ensures KeyIn(init, k) || last.key == k {
          var i :| 0 <= i < |items| && items[i].key == k;
          if i < |items| - 1 { assert init[i] == items[i]; }
        }
        forall k | KeyIn(init, k) ensures KeyIn(items, k) {
          var i :| 0 <= i < |init| && init[i].key == k;
          assert items[i] == init[i];
        }
        assert items[|items| - 1] == last;
      }
      if KeyIn(init, last.key) then d
      else
        var r := d + [last];
        assert forall k :: KeyIn(r, k) <==> KeyIn(d, k) || last.key == k by {
          forall k | KeyIn(r, k) ensures KeyIn(d, k) || last.key == k {
            var i :| 0 <= i < |r| && r[i].key == k;
            if i < |d| { assert r[i] == d[i]; }
          }
          forall k | KeyIn(d, k) ensures KeyIn(r, k) {
            var i :| 0 <= i < |d| && d[i].key == k;
            assert r[i] == d[i];
          }
          assert r[|d|] == last;
        }
        assert forall i :: 0 <= i < |d| ==> d[i].key != last.key by {
          assert !KeyIn(d, last.key);
        }
        r
  }

  /**
   * First write wins: the record for a key in `Dedup(items)` carries the value
   * of the first record of `items` with that key.
   */
  lemma {:induction false} DedupFirstWins<K(!new), V>(items: seq<Rec<K, V>>, i: nat)
    requires i < |items|
    requires forall j :: 0 <= j < i ==> items[j].key != items[i].key
    ensures exists p :: 0 <= p < |Dedup(items)| && Dedup(items)[p] == items[i]
    decreases |items|
  {
    var init, last := items[..|items| - 1], items[|items| - 1];
    if i == |items| - 1 {
      assert !KeyIn(init, last.key);
      assert Dedup(items) == Dedup(init) + [last];
      assert Dedup(items)[|Dedup(init)|] == items[i];
    } else {
      forall j | 0 <= j < i ensures init[j].key != init[i].key {
        assert init[j] == items[j] && init[i] == items[i];
      }
      DedupFirstWins(init, i);
      var p :| 0 <= p < |Dedup(init)| && Dedup(init)[p] == init[i];
      assert init[i] == items[i];
      assert Dedup(items)[p] == items[i];
    }
  }
}
