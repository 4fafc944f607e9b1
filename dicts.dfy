/**
 * Python dictionaries as association lists.
 *
 * A Python `dict` remembers insertion order: assigning to a key that is
 * already present changes its value in place, assigning to a new key adds it
 * at the end.  Iteration order over the sequence collection, over a
 * sequence's motif hits and over a k-mer `Counter` is observable in the
 * code this project models (row order, tie-break order), so a dict is kept
 * as a sequence of pairs with distinct keys rather than as a Dafny `map`.
 */
module Dicts {
  import opened Wrappers

  type Dict<K, V> = seq<(K, V)>

  function Keys<K, V>(d: Dict<K, V>): (ks: seq<K>)
    ensures |ks| == |d| && forall i :: 0 <= i < |d| ==> ks[i] == d[i].0
  {
    if d == [] then [] else [d[0].0] + Keys(d[1..])
  }

  function Values<K, V>(d: Dict<K, V>): seq<V>
  {
    seq(|d|, i requires 0 <= i < |d| => d[i].1)
  }

  /** `{k: f(v) for k, v in d.items()}`: every value replaced where it stands. */
  function MapValues<K, V, U>(d: Dict<K, V>, f: V -> U): Dict<K, U>
  {
    seq(|d|, i requires 0 <= i < |d| => (d[i].0, f(d[i].1)))
  }

  /** The invariant every Python dict keeps: no key occurs twice. */
  predicate DistinctKeys<K(==), V>(d: Dict<K, V>)
  {
    forall i, j :: 0 <= i < j < |d| ==> d[i].0 != d[j].0
  }

  /** `d.get(k)`: the value stored under `k`, if any. */
  function Get<K(==), V>(d: Dict<K, V>, k: K): (r: Option<V>)
    ensures r.None? <==> k !in Keys(d)
  {
    if d == [] then None
    else if d[0].0 == k then Some(d[0].1)
    else
      Get(d[1..], k)
  }

  /** `d.get(k, default)`. */
  function GetOr<K(==), V>(d: Dict<K, V>, k: K, default: V): (r: V)
    ensures k !in Keys(d) ==> r == default
    ensures k in Keys(d) ==> Get(d, k) == Some(r)
  {
    match Get(d, k)
    case Some(v) => v
    case None => default
  }

  /** `d[k] = v`: replaces the value of a present key where it stands, appends a new key. */
  function Put<K(==), V>(d: Dict<K, V>, k: K, v: V): (r: Dict<K, V>)
    ensures k in Keys(d) ==> Keys(r) == Keys(d)
    ensures k !in Keys(d) ==> r == d + [(k, v)]
  {
    if d == [] then [(k, v)]
    else if d[0].0 == k then [(k, v)] + d[1..]
    else
      var r := [d[0]] + Put(d[1..], k, v);
      assert Keys(r) == [d[0].0] + Keys(Put(d[1..], k, v));
      r
  }

  /** After `d[k] = v`, `k` maps to `v` and every other key keeps its value. */
  lemma {:induction false} GetPut<K, V>(d: Dict<K, V>, k: K, v: V, k': K)
    ensures Get(Put(d, k, v), k') == if k' == k then Some(v) else Get(d, k')
  {
    if d != [] && d[0].0 != k {
      GetPut(d[1..], k, v, k');
    }
  }

  lemma GetOrPut<K, V>(d: Dict<K, V>, k: K, v: V, k': K, default: V)
    ensures GetOr(Put(d, k, v), k', default) == if k' == k then v else GetOr(d, k', default)
  {
    GetPut(d, k, v, k');
  }

  /** Assignment adds its key to the dict's keys and no other. */
  lemma KeysPut<K, V>(d: Dict<K, V>, k: K, v: V, x: K)
    ensures x in Keys(Put(d, k, v)) <==> x in Keys(d) || x == k
  {
    if k !in Keys(d) {
      assert Keys(d + [(k, v)]) == Keys(d) + [k];
    }
  }

  /** `KeysPut` for every key at once. */
  lemma PutKeys<K, V>(d: Dict<K, V>, k: K, v: V)
    ensures forall x :: x in Keys(Put(d, k, v)) <==> x in Keys(d) || x == k
  {
    forall x ensures x in Keys(Put(d, k, v)) <==> x in Keys(d) || x == k {
      KeysPut(d, k, v, x);
    }
  }

  /** Assignment keeps a dict's keys distinct. */
  lemma {:induction false} PutDistinct<K, V>(d: Dict<K, V>, k: K, v: V)
    requires DistinctKeys(d)
    ensures DistinctKeys(Put(d, k, v))
  {
    if d != [] && d[0].0 != k {
      PutDistinct(d[1..], k, v);
      var r := Put(d, k, v);
      assert k in Keys(d) ==> Keys(r) == Keys(d);
      assert forall i :: 0 < i < |r| ==> r[i].0 != d[0].0 by {
        forall i | 0 < i < |r| ensures r[i].0 != d[0].0 {
          assert Keys(r)[i] == r[i].0;
          if k in Keys(d) {
            assert Keys(d)[i] == d[i].0;
          } else if i < |d| {
            assert r[i] == d[i];
          }
        }
      }
    }
  }

  /** In a dict with distinct keys, looking up the key stored at position `i` finds the value stored there. */
  lemma {:induction false} GetAt<K, V>(d: Dict<K, V>, i: nat)
    requires DistinctKeys(d) && i < |d|
    ensures Get(d, d[i].0) == Some(d[i].1)
  {
    if i > 0 {
      GetAt(d[1..], i - 1);
    }
  }

  /** Assigning to a key already stored at position `i` changes that position and nothing else. */
  lemma {:induction false} PutAt<K, V>(d: Dict<K, V>, i: nat, v: V)
    requires DistinctKeys(d) && i < |d|
    ensures Put(d, d[i].0, v) == d[i := (d[i].0, v)]
  {
    if i > 0 {
      PutAt(d[1..], i - 1, v);
    }
  }

  /** A sequence of assignments `d[k1] = v1; d[k2] = v2; ...`, as `d.update(e)` performs. */
  function PutAll<K(==), V>(d: Dict<K, V>, items: seq<(K, V)>): Dict<K, V>
  {
    if items == [] then d
    else
      var last := items[|items| - 1];
      Put(PutAll(d, items[..|items| - 1]), last.0, last.1)
  }

  /** The value of the last pair in `items` whose key is `k`. */
  function LastValue<K(==), V>(items: seq<(K, V)>, k: K): Option<V>
  {
    if items == [] then None
    else if items[|items| - 1].0 == k then Some(items[|items| - 1].1)
    else LastValue(items[..|items| - 1], k)
  }

  /** `LastValue` finds the last pair with the key, and finds nothing exactly when no pair has it. */
  lemma LastValueIsLast<K, V>(items: seq<(K, V)>, k: K)
    ensures LastValue(items, k).None? <==> k !in Keys(items)
    ensures LastValue(items, k).Some? ==>
      exists j :: 0 <= j < |items| && items[j] == (k, LastValue(items, k).value) &&
        forall j' :: j < j' < |items| ==> items[j'].0 != k
  {
    LastIndexIsLast(items, k);
    if LastValue(items, k).None? {
      assert k !in Keys(items) by {
        forall i | 0 <= i < |items| ensures Keys(items)[i] != k {
          assert items[i].0 != k;
        }
      }
    } else {
      assert Keys(items)[LastIndex(items, k)] == k;
    }
  }

  /** Where the last pair with key `k` stands, or -1. */
  function LastIndex<K(==), V>(items: seq<(K, V)>, k: K): int
  {
    if items == [] then -1
    else if items[|items| - 1].0 == k then |items| - 1
    else LastIndex(items[..|items| - 1], k)
  }

  lemma {:induction false} LastIndexIsLast<K, V>(items: seq<(K, V)>, k: K)
    ensures -1 <= LastIndex(items, k) < |items|
    ensures LastIndex(items, k) == -1 <==> LastValue(items, k).None?
    ensures LastIndex(items, k) == -1 ==> forall i :: 0 <= i < |items| ==> items[i].0 != k
    ensures LastIndex(items, k) >= 0 ==> items[LastIndex(items, k)] == (k, LastValue(items, k).value)
    ensures forall j :: LastIndex(items, k) < j < |items| ==> items[j].0 != k
  {
    if items != [] && items[|items| - 1].0 != k {
      var pre := items[..|items| - 1];
      LastIndexIsLast(pre, k);
      assert forall i :: 0 <= i < |pre| ==> pre[i] == items[i];
    }
  }

  /** In a dict with distinct keys the last pair with a key is the only one. */
  lemma {:induction false} LastValueOfDict<K, V>(d: Dict<K, V>, k: K)
    requires DistinctKeys(d)
    ensures LastValue(d, k) == Get(d, k)
  {
    LastValueIsLast(d, k);
    if LastValue(d, k).Some? {
      var j :| 0 <= j < |d| && d[j] == (k, LastValue(d, k).value);
      GetAt(d, j);
    }
  }

  /** After a run of assignments a key holds the last value assigned to it, or its old value. */
  lemma {:induction false} GetPutAll<K, V>(d: Dict<K, V>, items: seq<(K, V)>, k: K)
    ensures Get(PutAll(d, items), k) ==
      if LastValue(items, k).Some? then LastValue(items, k) else Get(d, k)
  {
    if items != [] {
      var last := items[|items| - 1];
      GetPutAll(d, items[..|items| - 1], k);
      GetPut(PutAll(d, items[..|items| - 1]), last.0, last.1, k);
    }
  }

  /** A run of assignments keeps a dict's keys distinct. */
  lemma {:induction false} PutAllDistinct<K, V>(d: Dict<K, V>, items: seq<(K, V)>)
    requires DistinctKeys(d)
    ensures DistinctKeys(PutAll(d, items))
  {
    if items != [] {
      var last := items[|items| - 1];
      PutAllDistinct(d, items[..|items| - 1]);
      PutDistinct(PutAll(d, items[..|items| - 1]), last.0, last.1);
    }
  }

  /** Looking up a key in `d + [(k, v)]`. */
  lemma {:induction false} GetAppend<K, V>(d: Dict<K, V>, k: K, v: V, k': K)
    ensures Get(d + [(k, v)], k') ==
      if k' in Keys(d) then Get(d, k') else if k' == k then Some(v) else None
  {
    if d != [] {
      assert (d + [(k, v)])[1..] == d[1..] + [(k, v)];
      GetAppend(d[1..], k, v, k');
    }
  }

  /** An assignment adds at most one entry. */
  lemma PutSize<K, V>(d: Dict<K, V>, k: K, v: V)
    ensures |Put(d, k, v)| <= |d| + 1
  {
    if k in Keys(d) {
      assert |Keys(Put(d, k, v))| == |Keys(d)|;
    }
  }

  /** A run of assignments adds at most one entry per assignment. */
  lemma {:induction false} PutAllSize<K, V>(d: Dict<K, V>, items: seq<(K, V)>)
    ensures |PutAll(d, items)| <= |d| + |items|
  {
    if items != [] {
      var last := items[|items| - 1];
      PutAllSize(d, items[..|items| - 1]);
      PutSize(PutAll(d, items[..|items| - 1]), last.0, last.1);
    }
  }

  /** After a run of assignments the keys are the old keys and the assigned ones. */
  lemma KeysPutAll<K, V>(d: Dict<K, V>, items: seq<(K, V)>, k: K)
    ensures k in Keys(PutAll(d, items)) <==> k in Keys(d) || k in Keys(items)
  {
    GetPutAll(d, items, k);
    LastValueIsLast(items, k);
  }

  /** `dict(items)` of a list whose keys are already distinct is that list, in its order. */
  lemma {:induction false} PutAllOfDistinct<K, V>(items: seq<(K, V)>)
    requires DistinctKeys(items)
    ensures PutAll([], items) == items
  {
    if items != [] {
      var front := items[..|items| - 1];
      var last := items[|items| - 1];
      assert DistinctKeys(front);
      PutAllOfDistinct(front);
      assert last.0 !in Keys(front) by {
        var ks := Keys(front);
        assert forall i :: 0 <= i < |ks| ==> ks[i] != last.0;
      }
      assert front + [last] == items;
    }
  }

  /** A second assignment to the same key overwrites the first where it stands. */
  lemma {:induction false} PutPut<K, V>(d: Dict<K, V>, k: K, v: V, w: V)
    ensures Put(Put(d, k, v), k, w) == Put(d, k, w)
  {
    if d != [] && d[0].0 != k {
      PutPut(d[1..], k, v, w);
    }
  }

  /** The keys of two association lists laid end to end. */
  lemma KeysAppend<K, V>(a: Dict<K, V>, b: Dict<K, V>, x: K)
    ensures x in Keys(a + b) <==> x in Keys(a) || x in Keys(b)
  {
    var l := Keys(a + b);
    var r := Keys(a) + Keys(b);
    forall i | 0 <= i < |l| ensures l[i] == r[i] {
      if i < |a| {
        assert (a + b)[i] == a[i];
      } else {
        assert (a + b)[i] == b[i - |a|];
      }
    }
    assert l == r;
  }

  /** Mapping the values keeps the keys and maps the value found under each. */
  lemma {:induction false} GetMapValues<K, V, U>(d: Dict<K, V>, f: V -> U, k: K)
    ensures Keys(MapValues(d, f)) == Keys(d)
    ensures Get(MapValues(d, f), k) == if k in Keys(d) then Some(f(Get(d, k).value)) else None
  {
    var r := MapValues(d, f);
    assert Keys(r) == Keys(d) by {
      forall i | 0 <= i < |d| ensures Keys(r)[i] == Keys(d)[i] {
        assert r[i].0 == d[i].0;
      }
    }
    if d != [] {
      assert r[1..] == MapValues(d[1..], f);
      GetMapValues(d[1..], f, k);
    }
  }
}
