/**
 * Ranking a sequence's motif hits: `sorted(hits.items(), key=score, reverse=True)[:5]`.
 *
 * Python's sort is stable, and stays stable with `reverse=True`: entries with
 * equal scores keep the order they had in the dict.  The sort is written as an
 * insertion sort that places each entry ahead of every later entry with a
 * score it equals or exceeds.
 */
module Ranking {
  import opened Dicts

  /** How many hits a sequence keeps. */
  const TopCount: nat := 5

  /** Places `x` before the first entry of `s` whose score it equals or exceeds. */
  function Insert<K>(x: (K, real), s: seq<(K, real)>): (r: seq<(K, real)>)
    ensures |r| == |s| + 1
    ensures r[0] == x || (s != [] && r[0] == s[0])
  {
    if s == [] || x.1 >= s[0].1 then [x] + s
    else
      assert s == [s[0]] + s[1..];
      [s[0]] + Insert(x, s[1..])
  }

  /** Inserting adds exactly `x` to the entries of `s`. */
  lemma {:induction false} InsertPermutes<K>(x: (K, real), s: seq<(K, real)>)
    ensures multiset(Insert(x, s)) == multiset(s) + multiset{x}
  {
    if s != [] && x.1 < s[0].1 {
      InsertPermutes(x, s[1..]);
      MultisetCons(s);
    }
  }

  /** `sorted(items, key=lambda x: x[1], reverse=True)`. */
  function SortDescending<K>(items: seq<(K, real)>): seq<(K, real)>
  {
    if items == [] then [] else Insert(items[0], SortDescending(items[1..]))
  }

  /** Scores never increase along `s`. */
  predicate Descending<K>(s: seq<(K, real)>)
  {
    forall i, j :: 0 <= i < j < |s| ==> s[j].1 <= s[i].1
  }

  /** The entries of `s` whose score is `v`, in their order in `s`. */
  function WithScore<K>(s: seq<(K, real)>, v: real): seq<(K, real)>
  {
    if s == [] then [] else (if s[0].1 == v then [s[0]] else []) + WithScore(s[1..], v)
  }

  /** `sorted(...)[:5]`: the five best entries. */
  function TopFive<K>(items: seq<(K, real)>): seq<(K, real)>
  {
    var sorted := SortDescending(items);
    if |sorted| <= TopCount then sorted else sorted[..TopCount]
  }

  // ---------------------------------------------------------------------------
  // The sort
  // ---------------------------------------------------------------------------

  lemma {:induction false} InsertDescending<K>(x: (K, real), s: seq<(K, real)>)
    requires Descending(s)
    ensures Descending(Insert(x, s))
  {
    if s != [] && x.1 < s[0].1 {
      InsertDescending(x, s[1..]);
      var r := Insert(x, s[1..]);
      assert r[0].1 <= s[0].1;
      forall j | 0 <= j < |r| ensures r[j].1 <= s[0].1 {
        assert r[j].1 <= r[0].1;
      }
    }
  }

  lemma {:induction false} WithScoreAppend<K>(a: seq<(K, real)>, b: seq<(K, real)>, v: real)
    ensures WithScore(a + b, v) == WithScore(a, v) + WithScore(b, v)
  {
    if a != [] {
      var head := if a[0].1 == v then [a[0]] else [];
      assert (a + b)[0] == a[0] && (a + b)[1..] == a[1..] + b;
      assert WithScore(a + b, v) == head + WithScore(a[1..] + b, v);
      WithScoreAppend(a[1..], b, v);
      assert WithScore(a, v) == head + WithScore(a[1..], v);
    } else {
      assert a + b == b;
    }
  }

  /** Inserting `x` places it ahead of every other entry with its score. */
  lemma {:induction false} WithScoreInsert<K>(x: (K, real), s: seq<(K, real)>, v: real)
    ensures WithScore(Insert(x, s), v) == (if x.1 == v then [x] else []) + WithScore(s, v)
  {
    if s == [] || x.1 >= s[0].1 {
      WithScoreCons(x, s, v);
    } else {
      WithScoreInsert(x, s[1..], v);
      WithScoreCons(s[0], Insert(x, s[1..]), v);
      WithScoreCons(s[0], s[1..], v);
      assert [s[0]] + s[1..] == s;
    }
  }

  lemma WithScoreCons<K>(e: (K, real), t: seq<(K, real)>, v: real)
    ensures WithScore([e] + t, v) == (if e.1 == v then [e] else []) + WithScore(t, v)
  {
    assert ([e] + t)[1..] == t;
  }

  /** The sort orders by non-increasing score and keeps every entry exactly once. */
  lemma SortDescendingIsSort<K>(items: seq<(K, real)>)
    ensures |SortDescending(items)| == |items|
    ensures Descending(SortDescending(items))
    ensures multiset(SortDescending(items)) == multiset(items)
  {
    SortDescendingOrders(items);
    SortDescendingPermutes(items);
  }

  lemma {:induction false} SortDescendingOrders<K>(items: seq<(K, real)>)
    ensures Descending(SortDescending(items))
  {
    if items != [] {
      SortDescendingOrders(items[1..]);
      InsertDescending(items[0], SortDescending(items[1..]));
    }
  }

  lemma {:induction false} SortDescendingPermutes<K>(items: seq<(K, real)>)
    ensures |SortDescending(items)| == |items|
    ensures multiset(SortDescending(items)) == multiset(items)
  {
    if items != [] {
      var rest := SortDescending(items[1..]);
      assert SortDescending(items) == Insert(items[0], rest);
      SortDescendingPermutes(items[1..]);
      InsertPermutes(items[0], rest);
      MultisetCons(items);
    }
  }

  lemma MultisetCons<T>(s: seq<T>)
    requires s != []
    ensures multiset(s) == multiset(s[1..]) + multiset{s[0]}
  {
    assert s == [s[0]] + s[1..];
  }

  /** The sort is stable: the entries with any one score come out in their original order. */
  lemma {:induction false} SortDescendingIsStable<K>(items: seq<(K, real)>, v: real)
    ensures WithScore(SortDescending(items), v) == WithScore(items, v)
  {
    if items != [] {
      SortDescendingIsStable(items[1..], v);
      WithScoreInsert(items[0], SortDescending(items[1..]), v);
    }
  }

  lemma {:induction false} InsertKeys<K>(x: (K, real), s: seq<(K, real)>, k: K)
    ensures k in Keys(Insert(x, s)) <==> k == x.0 || k in Keys(s)
  {
    if s != [] && x.1 < s[0].1 {
      InsertKeys(x, s[1..], k);
      assert Keys(s) == [s[0].0] + Keys(s[1..]);
      assert Keys(Insert(x, s)) == [s[0].0] + Keys(Insert(x, s[1..]));
    } else {
      assert Keys([x] + s) == [x.0] + Keys(s);
    }
  }

  lemma {:induction false} InsertDistinct<K>(x: (K, real), s: seq<(K, real)>)
    requires DistinctKeys(s) && x.0 !in Keys(s)
    ensures DistinctKeys(Insert(x, s))
  {
    if s == [] || x.1 >= s[0].1 {
      var r := [x] + s;
      forall j | 0 < j < |r| ensures r[j].0 != x.0 {
        assert Keys(s)[j - 1] == r[j].0;
      }
    } else {
      assert Keys(s) == [s[0].0] + Keys(s[1..]);
      InsertDistinct(x, s[1..]);
      var r := Insert(x, s[1..]);
      forall j | 0 <= j < |r| ensures r[j].0 != s[0].0 {
        assert r[j].0 in Keys(r) by { assert Keys(r)[j] == r[j].0; }
        InsertKeys(x, s[1..], r[j].0);
        if r[j].0 in Keys(s[1..]) {
          var i :| 0 <= i < |s[1..]| && Keys(s[1..])[i] == r[j].0;
          assert s[i + 1].0 == r[j].0;
        }
      }
    }
  }

  lemma {:induction false} SortDescendingKeys<K>(items: seq<(K, real)>, k: K)
    ensures k in Keys(SortDescending(items)) <==> k in Keys(items)
  {
    if items != [] {
      SortDescendingKeys(items[1..], k);
      InsertKeys(items[0], SortDescending(items[1..]), k);
      assert Keys(items) == [items[0].0] + Keys(items[1..]);
    }
  }

  /** Sorting the entries of a dict leaves no key repeated. */
  lemma {:induction false} SortDescendingDistinct<K>(items: seq<(K, real)>)
    requires DistinctKeys(items)
    ensures DistinctKeys(SortDescending(items))
  {
    if items != [] {
      assert DistinctKeys(items[1..]);
      SortDescendingDistinct(items[1..]);
      SortDescendingKeys(items[1..], items[0].0);
      assert items[0].0 !in Keys(items[1..]) by {
        var ks := Keys(items[1..]);
        assert forall i :: 0 <= i < |ks| ==> ks[i] == items[i + 1].0;
      }
      InsertDistinct(items[0], SortDescending(items[1..]));
    }
  }

  // ---------------------------------------------------------------------------
  // The top five
  // ---------------------------------------------------------------------------

  lemma {:induction false} WithScorePrefix<K>(s: seq<(K, real)>, n: nat, v: real)
    requires n <= |s|
    ensures WithScore(s[..n], v) <= WithScore(s, v)
  {
    assert s == s[..n] + s[n..];
    WithScoreAppend(s[..n], s[n..], v);
  }

  /** `sorted(...)[:5]` keeps `min(5, n)` of the `n` entries, best first. */
  lemma TopFiveIsTop<K>(items: seq<(K, real)>)
    ensures |TopFive(items)| == if |items| <= TopCount then |items| else TopCount
    ensures Descending(TopFive(items))
    ensures multiset(TopFive(items)) <= multiset(items)
  {
    SortDescendingIsSort(items);
    var sorted := SortDescending(items);
    assert sorted == TopFive(items) + sorted[|TopFive(items)|..];
  }

  /** In a descending list every entry after position `n` scores no more than every entry before it. */
  lemma DescendingSplit<K>(s: seq<(K, real)>, n: nat)
    requires Descending(s) && n <= |s|
    ensures forall x, y :: x in s[n..] && y in s[..n] ==> x.1 <= y.1
  {
    forall x, y | x in s[n..] && y in s[..n] ensures x.1 <= y.1 {
      var i :| 0 <= i < |s[n..]| && s[n..][i] == x;
      var j :| 0 <= j < n && s[..n][j] == y;
      assert s[n + i] == x && s[j] == y;
    }
  }

  /** Every entry `sorted(...)[:5]` drops scores no more than every entry it keeps. */
  lemma TopFiveDropsLower<K>(items: seq<(K, real)>)
    ensures forall x, y :: x in multiset(items) - multiset(TopFive(items)) && y in TopFive(items) ==> x.1 <= y.1
  {
    SortDescendingIsSort(items);
    var sorted := SortDescending(items);
    var top := TopFive(items);
    var n := |top|;
    assert top == sorted[..n];
    assert sorted == top + sorted[n..];
    assert multiset(items) - multiset(top) == multiset(sorted[n..]);
    DescendingSplit(sorted, n);
  }

  /** Among entries with equal scores, `sorted(...)[:5]` keeps the ones the dict lists first. */
  lemma TopFiveKeepsFirst<K>(items: seq<(K, real)>, v: real)
    ensures WithScore(TopFive(items), v) <= WithScore(items, v)
  {
    var sorted := SortDescending(items);
    SortDescendingIsStable(items, v);
    WithScorePrefix(sorted, |TopFive(items)|, v);
  }

  /** The top five of a dict's entries have distinct keys, so `dict(...)` of them keeps
      them as they are, best first. */
  lemma TopFiveDistinct<K>(items: seq<(K, real)>)
    requires DistinctKeys(items)
    ensures DistinctKeys(TopFive(items))
    ensures PutAll([], TopFive(items)) == TopFive(items)
  {
    SortDescendingDistinct(items);
    PutAllOfDistinct(TopFive(items));
  }

  /** Four hits scoring 1, 3, 3 and 2 rank as b, c (the earlier of the tied threes), d, a. */
  lemma TopFiveExample()
    ensures TopFive([("a", 1.0), ("b", 3.0), ("c", 3.0), ("d", 2.0)])
         == [("b", 3.0), ("c", 3.0), ("d", 2.0), ("a", 1.0)]
  {
    TopFiveOfFour(("a", 1.0), ("b", 3.0), ("c", 3.0), ("d", 2.0));
  }

  /** Four entries where `b` and `c` tie for the best score, `d` comes next and `a` last. */
  lemma TopFiveOfFour<K>(a: (K, real), b: (K, real), c: (K, real), d: (K, real))
    requires a.1 < d.1 < b.1 && b.1 == c.1
    ensures TopFive([a, b, c, d]) == [b, c, d, a]
  {
    SortOfThree(b, c, d);
    SortStep(a, [b, c, d], [b, c, d]);
    assert [a] + [b, c, d] == [a, b, c, d];
    InsertBelowThree(a, b, c, d);
    var sorted := SortDescending([a, b, c, d]);
    assert sorted == [b, c, d, a];
    assert |sorted| <= TopCount;
  }

  lemma SortOfThree<K>(b: (K, real), c: (K, real), d: (K, real))
    requires d.1 <= c.1 <= b.1
    ensures SortDescending([b, c, d]) == [b, c, d]
  {
    SortStep(d, [], []);
    assert [d] + [] == [d];
    SortStep(c, [d], [d]);
    assert [c] + [d] == [c, d];
    SortStep(b, [c, d], [c, d]);
    assert [b] + [c, d] == [b, c, d];
  }

  lemma InsertBelowThree<K>(a: (K, real), b: (K, real), c: (K, real), d: (K, real))
    requires a.1 < d.1 <= c.1 <= b.1
    ensures Insert(a, [b, c, d]) == [b, c, d, a]
  {
    InsertBelowAll(a, [b, c, d]);
  }

  /** An entry that scores less than every entry of `s` goes to the end. */
  lemma {:induction false} InsertBelowAll<K>(x: (K, real), s: seq<(K, real)>)
    requires forall i :: 0 <= i < |s| ==> x.1 < s[i].1
    ensures Insert(x, s) == s + [x]
  {
    if s != [] {
      InsertBelowAll(x, s[1..]);
      assert s == [s[0]] + s[1..];
    }
  }

  /** Sorting `[x] + rest` inserts `x` into the sorted rest. */
  lemma SortStep<K>(x: (K, real), rest: seq<(K, real)>, sorted: seq<(K, real)>)
    requires SortDescending(rest) == sorted
    ensures SortDescending([x] + rest) == Insert(x, sorted)
  {
    assert ([x] + rest)[1..] == rest;
  }
}
