/**
 * The responses map of a request matcher (a JavaScript `Map` from request
 * fingerprint to response): its entries in insertion order, each with the
 * number of times it was recorded or served. `get`, `set`, and the hit count
 * that `addHit` keeps, with the facts the matcher relies on.
 */
module ResponseTable {
  import opened Wrappers
  import opened JsValues
  import opened KeyedList

  /**
   * One value of the map: the response filed under a request fingerprint,
   * with the number of times it was recorded or served.
   */
  datatype Entry<T> = Entry(id: Value, response: T, hits: nat)

  /** The key an entry is filed under: its request fingerprint. */
  function EntryId<T>(e: Entry<T>): Value
  {
    e.id
  }

  /** Map keys are unique: no two entries share a fingerprint. */
  predicate DistinctIds<T>(entries: seq<Entry<T>>)
  {
    forall i, j :: 0 <= i < j < |entries| ==> entries[i].id != entries[j].id
  }

  /** Unique fingerprints are unique keys of the table as a keyed list. */
  lemma {:induction false} DistinctIdsAreKeys<T>(entries: seq<Entry<T>>)
    ensures DistinctIds(entries) <==> DistinctKeys(entries, EntryId)
  {
  }

  /** The hits of all entries together: the sum `isPending` compares with `minTimes`. */
  function TotalHits<T>(entries: seq<Entry<T>>): nat
  {
    if |entries| == 0 then 0 else entries[0].hits + TotalHits(entries[1..])
  }

  /** `response.addHit()` on the entry stored under `id`, when there is one. */
  function CountHit<T(==,!new)>(entries: seq<Entry<T>>, id: Value): (r: seq<Entry<T>>)
    ensures (forall i :: 0 <= i < |entries| ==> entries[i].id != id) ==> r == entries
    ensures |r| == |entries| && forall i :: 0 <= i < |r| ==> r[i].id == entries[i].id
  {
    if |entries| == 0 then entries
    else if entries[0].id == id then [entries[0].(hits := entries[0].hits + 1)] + entries[1..]
    else [entries[0]] + CountHit(entries[1..], id)
  }

  /**
   * Lines 112-117 of addResponse: the response is filed under `key` unless
   * that key is taken, then the entry under `key` counts a hit. A `set` under
   * a key not yet taken appends (`KeyedList.Put`), and `FileIsPut` says so.
   */
  function File<T(==,!new)>(entries: seq<Entry<T>>, key: Value, response: T): (r: seq<Entry<T>>)
    ensures Find(entries, EntryId, key).Some? ==> SameIds(r, entries)
    ensures Find(entries, EntryId, key).None? ==> SameIds(r, entries + [Entry(key, response, 0)])
  {
    if Find(entries, EntryId, key).Some? then CountHit(entries, key)
    else CountHit(entries + [Entry(key, response, 0)], key)
  }

  /** Filing is the source's `has`, then `set` when the key is new, then `addHit`. */
  lemma {:induction false} FileIsPut<T(!new)>(entries: seq<Entry<T>>, key: Value, response: T)
    ensures File(entries, key, response) ==
      CountHit(if Find(entries, EntryId, key).Some? then entries else Put(entries, EntryId, Entry(key, response, 0)), key)
  {
    assert EntryId(Entry(key, response, 0)) == key;
  }

  /** Two entry lists with the same keys in the same places. */
  predicate SameIds<T>(a: seq<Entry<T>>, b: seq<Entry<T>>)
  {
    |a| == |b| && forall i :: 0 <= i < |a| ==> a[i].id == b[i].id
  }

  /** Keys are unique in one list exactly when they are in another with the same keys. */
  lemma {:induction false} SameIdsDistinct<T(!new)>(a: seq<Entry<T>>, b: seq<Entry<T>>)
    requires SameIds(a, b)
    ensures DistinctIds(a) <==> DistinctIds(b)
  {
    if DistinctIds(a) {
      forall i, j | 0 <= i < j < |b| ensures b[i].id != b[j].id {
        assert a[i].id != a[j].id;
      }
    }
    if DistinctIds(b) {
      forall i, j | 0 <= i < j < |a| ensures a[i].id != a[j].id {
        assert b[i].id != b[j].id;
      }
    }
  }

  /** Setting a new key adds that entry's hits to the total. */
  lemma {:induction false} TotalHitsAppend<T>(entries: seq<Entry<T>>, e: Entry<T>)
    ensures TotalHits(entries + [e]) == TotalHits(entries) + e.hits
    decreases |entries|
  {
    if |entries| > 0 {
      assert (entries + [e])[1..] == entries[1..] + [e];
      TotalHitsAppend(entries[1..], e);
    }
  }

  /** A hit counted under the key of the entry filed there reads that entry back with one more hit. */
  lemma {:induction false} FindCounted<T(!new)>(entries: seq<Entry<T>>, e: Entry<T>)
    requires Find(entries, EntryId, e.id) == Some(e)
    ensures Find(CountHit(entries, e.id), EntryId, e.id) == Some(e.(hits := e.hits + 1))
  {
    var x := e.(hits := e.hits + 1);
    CountHitIsPut(entries, e);
    FindAfterPut(entries, EntryId, x, e.id);
  }

  /** Counting a hit under a key that is present sets that key to its entry with one more hit. */
  lemma {:induction false} CountHitIsPut<T(!new)>(entries: seq<Entry<T>>, e: Entry<T>)
    requires Find(entries, EntryId, e.id) == Some(e)
    ensures CountHit(entries, e.id) == Put(entries, EntryId, e.(hits := e.hits + 1))
    decreases |entries|
  {
    var x := e.(hits := e.hits + 1);
    assert EntryId(x) == e.id;
    if entries[0].id == e.id {
      assert CountHit(entries, e.id) == [x] + entries[1..];
      assert Put(entries, EntryId, x) == [x] + entries[1..];
    } else {
      CountHitIsPut(entries[1..], e);
      assert CountHit(entries, e.id) == [entries[0]] + CountHit(entries[1..], e.id);
      assert Put(entries, EntryId, x) == [entries[0]] + Put(entries[1..], EntryId, x);
    }
  }

  /** A hit counted under `id` leaves the entries under every other key as they were. */
  lemma {:induction false} FindNotCounted<T(!new)>(entries: seq<Entry<T>>, id: Value, other: Value)
    requires other != id
    ensures Find(CountHit(entries, id), EntryId, other) == Find(entries, EntryId, other)
  {
    if Find(entries, EntryId, id).None? {
      FindNone(entries, EntryId, id);
      assert CountHit(entries, id) == entries;
    } else {
      var e := Find(entries, EntryId, id).value;
      var x := e.(hits := e.hits + 1);
      CountHitIsPut(entries, e);
      assert CountHit(entries, id) == Put(entries, EntryId, x);
      FindAfterPut(entries, EntryId, x, other);
      assert other != EntryId(x);
    }
  }

  /** A hit counted under a key that is present adds one to the total. */
  lemma {:induction false} TotalAfterCount<T(!new)>(entries: seq<Entry<T>>, id: Value)
    ensures TotalHits(CountHit(entries, id)) == TotalHits(entries) + (if Find(entries, EntryId, id).Some? then 1 else 0)
    decreases |entries|
  {
    if |entries| > 0 {
      var r := CountHit(entries, id);
      if entries[0].id == id {
        assert r[1..] == entries[1..];
      } else {
        assert r[1..] == CountHit(entries[1..], id);
        TotalAfterCount(entries[1..], id);
      }
    }
  }

  /** The entries that were used: `filter(response => response.hits > 0)`, in order. */
  function Recorded<T(==,!new)>(entries: seq<Entry<T>>): (r: seq<Entry<T>>)
    ensures forall x :: x in r ==> x in entries && x.hits > 0
    ensures forall i :: 0 <= i < |entries| && entries[i].hits > 0 ==> entries[i] in r
    ensures DistinctIds(entries) ==> DistinctIds(r)
  {
    if |entries| == 0 then []
    else
      var rest := Recorded(entries[1..]);
      assert forall i :: 1 <= i < |entries| ==> entries[i] == entries[1..][i - 1];
      if entries[0].hits > 0 then
        assert DistinctIds(entries) ==> DistinctIds([entries[0]] + rest) by {
          if DistinctIds(entries) {
            forall i | 0 < i < |rest| + 1
              ensures ([entries[0]] + rest)[i].id != entries[0].id
            {
              assert rest[i - 1] in rest;
            }
          }
        }
        [entries[0]] + rest
      else rest
  }

  /** The entries with their hit counts cleared, as deserialize files them. */
  function Unused<T(==,!new)>(entries: seq<Entry<T>>): (r: seq<Entry<T>>)
    ensures |r| == |entries|
    ensures forall i :: 0 <= i < |r| ==> r[i] == entries[i].(hits := 0)
  {
    if |entries| == 0 then [] else [entries[0].(hits := 0)] + Unused(entries[1..])
  }

  /**
   * A response filed under a key already present: that entry keeps its
   * response and counts one more hit; no other entry changes.
   */
  lemma {:induction false} FileKnown<T(!new)>(entries: seq<Entry<T>>, key: Value, response: T, e: Entry<T>)
    requires Find(entries, EntryId, key) == Some(e)
    ensures var r := File(entries, key, response);
      Find(r, EntryId, key) == Some(e.(hits := e.hits + 1))
      && (forall id :: id != key ==> Find(r, EntryId, id) == Find(entries, EntryId, id))
      && TotalHits(r) == TotalHits(entries) + 1
      && (DistinctIds(entries) ==> DistinctIds(r))
  {
    var r := File(entries, key, response);
    assert r == CountHit(entries, key);
    FindCounted(entries, e);
    TotalAfterCount(entries, key);
    forall id | id != key ensures Find(r, EntryId, id) == Find(entries, EntryId, id) {
      FindNotCounted(entries, key, id);
    }
    SameIdsDistinct(entries, r);
  }

  /** A response filed under a new key: a new entry with one hit at the end; no other entry changes. */
  lemma {:induction false} FileNew<T(!new)>(entries: seq<Entry<T>>, key: Value, response: T)
    requires Find(entries, EntryId, key).None?
    ensures var r := File(entries, key, response);
      Find(r, EntryId, key) == Some(Entry(key, response, 1))
      && (forall id :: id != key ==> Find(r, EntryId, id) == Find(entries, EntryId, id))
      && TotalHits(r) == TotalHits(entries) + 1
      && (DistinctIds(entries) ==> DistinctIds(r))
  {
    FileNewFound(entries, key, response);
    FileNewOthers(entries, key, response);
    if DistinctIds(entries) {
      var e := Entry(key, response, 0);
      DistinctIdsAreKeys(entries);
      PutKeepsDistinct(entries, EntryId, e);
      DistinctIdsAreKeys(Put(entries, EntryId, e));
      SameIdsDistinct(Put(entries, EntryId, e), File(entries, key, response));
    }
  }

  /** Filing under a new key appends the entry and counts its first hit. */
  lemma {:induction false} FileNewFound<T(!new)>(entries: seq<Entry<T>>, key: Value, response: T)
    requires Find(entries, EntryId, key).None?
    ensures Find(File(entries, key, response), EntryId, key) == Some(Entry(key, response, 1))
    ensures TotalHits(File(entries, key, response)) == TotalHits(entries) + 1
  {
    var e := Entry(key, response, 0);
    assert EntryId(e) == key;
    var filed := Put(entries, EntryId, e);
    assert filed == entries + [e];
    assert File(entries, key, response) == CountHit(filed, key);
    assert Find(filed, EntryId, key) == Some(e) by {
      FindAfterPut(entries, EntryId, e, key);
    }
    FindCounted(filed, e);
    TotalAfterCount(filed, key);
    TotalHitsAppend(entries, e);
  }

  /** Filing under a new key leaves the entries under every other key as they were. */
  lemma {:induction false} FileNewOthers<T(!new)>(entries: seq<Entry<T>>, key: Value, response: T)
    requires Find(entries, EntryId, key).None?
    ensures forall id :: id != key ==> Find(File(entries, key, response), EntryId, id) == Find(entries, EntryId, id)
  {
    var e := Entry(key, response, 0);
    var filed := Put(entries, EntryId, e);
    assert File(entries, key, response) == CountHit(filed, key);
    forall id | id != key ensures Find(File(entries, key, response), EntryId, id) == Find(entries, EntryId, id) {
      FindAfterPut(entries, EntryId, e, id);
      FindNotCounted(filed, key, id);
    }
  }

  /** Filing a response, under a new key or a known one, counts exactly one hit. */
  lemma {:induction false} FileCountsOne<T(!new)>(entries: seq<Entry<T>>, key: Value, response: T)
    ensures TotalHits(File(entries, key, response)) == TotalHits(entries) + 1
  {
    if Find(entries, EntryId, key).Some? {
      FileKnown(entries, key, response, Find(entries, EntryId, key).value);
    } else {
      FileNew(entries, key, response);
    }
  }
}
