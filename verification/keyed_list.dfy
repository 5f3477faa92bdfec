/**
 * A JavaScript `Map` whose values carry their own key, as the request map
 * files each matcher under its id: the values in insertion order, with
 * `get`, `set`, deletion by a filter, and the facts the request map relies on.
 */
module KeyedList {
  import opened Wrappers
  import opened JsValues

  /** Map keys are unique: no two values share a key. */
  predicate DistinctKeys<T>(xs: seq<T>, key: T -> Value)
  {
    forall i, j :: 0 <= i < j < |xs| ==> key(xs[i]) != key(xs[j])
  }

  /** `Map.prototype.get`: the value stored under `id`. */
  function Find<T(==)>(xs: seq<T>, key: T -> Value, id: Value): (r: Option<T>)
    ensures r.Some? ==> key(r.value) == id && r.value in xs
  {
    if |xs| == 0 then None
    else if key(xs[0]) == id then Some(xs[0])
    else Find(xs[1..], key, id)
  }

  /** `get` finds nothing exactly when no value has the key. */
  lemma {:induction false} FindNone<T>(xs: seq<T>, key: T -> Value, id: Value)
    ensures Find(xs, key, id).None? <==> forall i :: 0 <= i < |xs| ==> key(xs[i]) != id
    decreases |xs|
  {
    if |xs| > 0 && key(xs[0]) != id {
      FindNone(xs[1..], key, id);
      assert forall i :: 1 <= i < |xs| ==> xs[i] == xs[1..][i - 1];
    }
  }

  /** With unique keys, `get` returns the one value filed under a key. */
  lemma {:induction false} FindDistinct<T>(xs: seq<T>, key: T -> Value, i: nat)
    requires DistinctKeys(xs, key) && i < |xs|
    ensures Find(xs, key, key(xs[i])) == Some(xs[i])
    decreases i
  {
    if i > 0 {
      assert key(xs[0]) != key(xs[i]);
      assert xs[1..][i - 1] == xs[i];
      FindDistinct(xs[1..], key, i - 1);
    }
  }

  /**
   * `Map.prototype.set`: a new key goes to the end; a key already present
   * keeps its place and takes the new value.
   */
  function Put<T(==,!new)>(xs: seq<T>, key: T -> Value, x: T): (r: seq<T>)
    ensures Find(xs, key, key(x)).None? ==> r == xs + [x]
    ensures Find(xs, key, key(x)).Some? ==> |r| == |xs| && forall i :: 0 <= i < |r| ==> key(r[i]) == key(xs[i])
    ensures forall y :: y in r ==> y == x || y in xs
  {
    if |xs| == 0 then [x]
    else if key(xs[0]) == key(x) then
      assert forall i :: 1 <= i < |xs| ==> xs[i] == xs[1..][i - 1];
      [x] + xs[1..]
    else
      var rest := Put(xs[1..], key, x);
      assert ([xs[0]] + rest)[1..] == rest;
      assert forall i :: 1 <= i < |xs| ==> xs[i] == xs[1..][i - 1];
      [xs[0]] + rest
  }

  /** After a set, the key set reads as the new value and every other key as before. */
  lemma {:induction false} FindAfterPut<T(!new)>(xs: seq<T>, key: T -> Value, x: T, id: Value)
    ensures Find(Put(xs, key, x), key, id) == if id == key(x) then Some(x) else Find(xs, key, id)
    decreases |xs|
  {
    if |xs| > 0 && key(xs[0]) != key(x) {
      var rest := Put(xs[1..], key, x);
      assert ([xs[0]] + rest)[1..] == rest;
      FindAfterPut(xs[1..], key, x, id);
    }
  }

  /** A set keeps the keys unique. */
  lemma PutKeepsDistinct<T(!new)>(xs: seq<T>, key: T -> Value, x: T)
    ensures DistinctKeys(xs, key) ==> DistinctKeys(Put(xs, key, x), key)
  {
    var r := Put(xs, key, x);
    if DistinctKeys(xs, key) && Find(xs, key, key(x)).None? {
      FindNone(xs, key, key(x));
      forall i, j | 0 <= i < j < |r| ensures key(r[i]) != key(r[j]) {
        if j == |xs| {
          assert r[i] == xs[i];
        } else {
          assert r[i] == xs[i] && r[j] == xs[j];
        }
      }
    }
  }

  /** `set` for each value in turn, into a map holding `acc`. */
  function PutAll<T(==,!new)>(acc: seq<T>, xs: seq<T>, key: T -> Value): (r: seq<T>)
    ensures DistinctKeys(acc, key) ==> DistinctKeys(r, key)
    ensures forall y :: y in r ==> y in acc || y in xs
    decreases |xs|
  {
    if |xs| == 0 then acc
    else
      PutKeepsDistinct(acc, key, xs[0]);
      var r := PutAll(Put(acc, key, xs[0]), xs[1..], key);
      assert forall y :: y in xs[1..] ==> y in xs;
      r
  }

  /** The last of the values with key `id`: the one a run of `set`s leaves under that key. */
  function LastWith<T(==)>(xs: seq<T>, key: T -> Value, id: Value): (r: Option<T>)
    ensures r.None? <==> forall i :: 0 <= i < |xs| ==> key(xs[i]) != id
    ensures r.Some? ==>
      exists i :: 0 <= i < |xs| && xs[i] == r.value && key(xs[i]) == id && forall j :: i < j < |xs| ==> key(xs[j]) != id
  {
    if |xs| == 0 then None
    else
      var later := LastWith(xs[1..], key, id);
      assert forall i :: 1 <= i < |xs| ==> xs[i] == xs[1..][i - 1];
      if later.Some? then
        var k :| 0 <= k < |xs[1..]| && xs[1..][k] == later.value && key(xs[1..][k]) == id
          && forall j :: k < j < |xs[1..]| ==> key(xs[1..][j]) != id;
        assert forall j :: k + 1 < j < |xs| ==> key(xs[j]) != id by {
          forall j | k + 1 < j < |xs| ensures key(xs[j]) != id {
            assert xs[j] == xs[1..][j - 1];
          }
        }
        later
      else if key(xs[0]) == id then Some(xs[0])
      else None
  }

  /** After `set` of each value in turn, a key reads as its last value, or as before when none has it. */
  lemma {:induction false} FindAfterPutAll<T(!new)>(acc: seq<T>, xs: seq<T>, key: T -> Value, id: Value)
    ensures Find(PutAll(acc, xs, key), key, id) == if LastWith(xs, key, id).Some? then LastWith(xs, key, id) else Find(acc, key, id)
    decreases |xs|
  {
    if |xs| > 0 {
      FindAfterPutAll(Put(acc, key, xs[0]), xs[1..], key, id);
      FindAfterPut(acc, key, xs[0], id);
    }
  }

  /**
   * Set one after the other into an empty map, every value's key is present,
   * and a value no later value shares its key with is the one kept.
   */
  lemma PutAllKeepsLast<T(!new)>(xs: seq<T>, key: T -> Value, i: nat)
    requires i < |xs|
    ensures Find(PutAll([], xs, key), key, key(xs[i])).Some?
    ensures (forall j :: i < j < |xs| ==> key(xs[j]) != key(xs[i])) ==> Find(PutAll([], xs, key), key, key(xs[i])) == Some(xs[i])
  {
    FindAfterPutAll([], xs, key, key(xs[i]));
    var last := LastWith(xs, key, key(xs[i]));
    if forall j :: i < j < |xs| ==> key(xs[j]) != key(xs[i]) {
      var k :| 0 <= k < |xs| && xs[k] == last.value && key(xs[k]) == key(xs[i])
        && forall j :: k < j < |xs| ==> key(xs[j]) != key(xs[i]);
      assert !(k < i) && !(k > i);
    }
  }

  /**
   * `ys` is what setting `xs` in turn leaves: every key of `xs` is present,
   * a value no later value shares its key with is the one kept, and nothing
   * else is there.
   */
  predicate KeepsLast<T(==)>(xs: seq<T>, key: T -> Value, ys: seq<T>)
  {
    (forall i :: 0 <= i < |xs| ==> Find(ys, key, key(xs[i])).Some?)
    && (forall i :: 0 <= i < |xs| && (forall j :: i < j < |xs| ==> key(xs[j]) != key(xs[i])) ==> Find(ys, key, key(xs[i])) == Some(xs[i]))
    && (forall y :: y in ys ==> y in xs)
  }

  /** Setting values in turn into an empty map keeps the last value of each key. */
  lemma PutAllKeepsLastAll<T(!new)>(xs: seq<T>, key: T -> Value)
    ensures KeepsLast(xs, key, PutAll([], xs, key))
  {
    forall i | 0 <= i < |xs|
      ensures Find(PutAll([], xs, key), key, key(xs[i])).Some?
      ensures (forall j :: i < j < |xs| ==> key(xs[j]) != key(xs[i])) ==> Find(PutAll([], xs, key), key, key(xs[i])) == Some(xs[i])
    {
      PutAllKeepsLast(xs, key, i);
    }
  }

  /** Values whose keys are all new and unique are simply appended, in order. */
  lemma {:induction false} PutAllFresh<T(!new)>(acc: seq<T>, xs: seq<T>, key: T -> Value)
    requires DistinctKeys(acc + xs, key)
    ensures PutAll(acc, xs, key) == acc + xs
    decreases |xs|
  {
    if |xs| > 0 {
      var both := acc + xs;
      assert forall i :: 0 <= i < |acc| ==> both[i] == acc[i];
      assert both[|acc|] == xs[0];
      FindNone(acc, key, key(xs[0]));
      assert Put(acc, key, xs[0]) == acc + [xs[0]];
      assert acc + [xs[0]] + xs[1..] == both;
      PutAllFresh(acc + [xs[0]], xs[1..], key);
    }
  }

  /** The values that satisfy `p`, in insertion order: deleting the others. */
  function Filter<T(==,!new)>(xs: seq<T>, p: T -> bool): (r: seq<T>)
    ensures forall y :: y in r <==> y in xs && p(y)
    ensures |r| <= |xs|
  {
    if |xs| == 0 then []
    else
      var rest := Filter(xs[1..], p);
      assert forall y :: y in xs <==> y == xs[0] || y in xs[1..];
      if p(xs[0]) then [xs[0]] + rest else rest
  }

  /** When no value passes, the filter deletes them all. */
  lemma {:induction false} FilterNone<T(!new)>(xs: seq<T>, p: T -> bool)
    requires forall i :: 0 <= i < |xs| ==> !p(xs[i])
    ensures Filter(xs, p) == []
    decreases |xs|
  {
    if |xs| > 0 {
      assert forall i :: 0 <= i < |xs[1..]| ==> xs[1..][i] == xs[i + 1];
      FilterNone(xs[1..], p);
    }
  }

  /** Filtering keeps the insertion order: it distributes over concatenation. */
  lemma {:induction false} FilterAppend<T(!new)>(a: seq<T>, b: seq<T>, p: T -> bool)
    ensures Filter(a + b, p) == Filter(a, p) + Filter(b, p)
    decreases |a|
  {
    if |a| == 0 {
      assert a + b == b;
    } else {
      assert (a + b)[1..] == a[1..] + b;
      FilterAppend(a[1..], b, p);
      if p(a[0]) {
        assert [a[0]] + Filter(a[1..], p) + Filter(b, p) == [a[0]] + (Filter(a[1..], p) + Filter(b, p));
      }
    }
  }

  /** Filtering twice by the same test changes nothing more. */
  lemma {:induction false} FilterTwice<T(!new)>(xs: seq<T>, p: T -> bool)
    ensures Filter(Filter(xs, p), p) == Filter(xs, p)
    decreases |xs|
  {
    if |xs| > 0 {
      FilterTwice(xs[1..], p);
      if p(xs[0]) {
        assert ([xs[0]] + Filter(xs[1..], p))[1..] == Filter(xs[1..], p);
      }
    }
  }

  /** Deleting values keeps the keys unique. */
  lemma {:induction false} FilterKeepsDistinct<T(!new)>(xs: seq<T>, key: T -> Value, p: T -> bool)
    requires DistinctKeys(xs, key)
    ensures DistinctKeys(Filter(xs, p), key)
    decreases |xs|
  {
    if |xs| > 0 {
      assert DistinctKeys(xs[1..], key) by {
        forall i, j | 0 <= i < j < |xs[1..]| ensures key(xs[1..][i]) != key(xs[1..][j]) {
          assert xs[1..][i] == xs[i + 1] && xs[1..][j] == xs[j + 1];
        }
      }
      FilterKeepsDistinct(xs[1..], key, p);
      var rest := Filter(xs[1..], p);
      if p(xs[0]) {
        var r := [xs[0]] + rest;
        forall i, j | 0 <= i < j < |r| ensures key(r[i]) != key(r[j]) {
          if i == 0 {
            assert r[j] in rest;
            var k :| 0 <= k < |xs[1..]| && xs[1..][k] == r[j];
            assert xs[k + 1] == r[j];
          } else {
            assert r[i] == rest[i - 1] && r[j] == rest[j - 1];
          }
        }
      }
    }
  }

  /**
   * With unique keys, after deleting the values that fail `p` a key reads as
   * before if its value passes and as absent otherwise.
   */
  lemma {:induction false} FindAfterFilter<T(!new)>(xs: seq<T>, key: T -> Value, p: T -> bool, id: Value)
    requires DistinctKeys(xs, key)
    ensures Find(Filter(xs, p), key, id) ==
      if Find(xs, key, id).Some? && p(Find(xs, key, id).value) then Find(xs, key, id) else None
    decreases |xs|
  {
    if |xs| > 0 {
      assert DistinctKeys(xs[1..], key) by {
        forall i, j | 0 <= i < j < |xs[1..]| ensures key(xs[1..][i]) != key(xs[1..][j]) {
          assert xs[1..][i] == xs[i + 1] && xs[1..][j] == xs[j + 1];
        }
      }
      FindAfterFilter(xs[1..], key, p, id);
      var rest := Filter(xs[1..], p);
      if key(xs[0]) == id {
        FindNone(xs[1..], key, id);
        assert forall i :: 0 <= i < |xs[1..]| ==> xs[1..][i] == xs[i + 1];
        if p(xs[0]) {
          assert ([xs[0]] + rest)[0] == xs[0];
        }
      } else if p(xs[0]) {
        assert ([xs[0]] + rest)[1..] == rest;
      }
    }
  }
}
