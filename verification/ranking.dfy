/** `sort_cities_by_value` and `sort_cities` (statistics.py): the items of a
    dict sorted by value in descending order with `sorted(..., reverse=True)`,
    which is stable, then cut to the first `n` items and turned back into a
    dict. Values are compared through a `rank` into `real`, so the same sort
    serves integer salary tables and fractional share tables.
 */
module Ranking {
  import opened OrderedMaps
  import opened Seqs

  /** Non-increasing by rank. */
  predicate SortedDesc<K, V>(s: Dict<K, V>, rank: V -> real) {
    forall i, j | 0 <= i < j < |s| :: rank(s[i].1) >= rank(s[j].1)
  }

  /** Puts `e` in front of the first item whose rank is not greater than its own. */
  function InsertDesc<K, V>(s: Dict<K, V>, e: (K, V), rank: V -> real): (r: Dict<K, V>)
    ensures |r| == |s| + 1
  {
    if |s| == 0 then [e]
    else if rank(s[0].1) > rank(e.1) then
      var tail := InsertDesc(s[1..], e, rank);
      assert s == [s[0]] + s[1..];
      [s[0]] + tail
    else [e] + s
  }

  /** The stable descending sort: each item is inserted before the equally
      ranked items that come after it in the input. */
  function SortDesc<K, V>(d: Dict<K, V>, rank: V -> real): (r: Dict<K, V>)
    ensures |r| == |d|
  {
    if |d| == 0 then []
    else
      assert d == [d[0]] + d[1..];
      InsertDesc(SortDesc(d[1..], rank), d[0], rank)
  }

  /** Inserting adds exactly `e` to the items. */
  lemma {:induction false} InsertDescPerm<K, V>(s: Dict<K, V>, e: (K, V), rank: V -> real)
    ensures multiset(InsertDesc(s, e, rank)) == multiset(s) + multiset{e}
    decreases |s|
  {
    if |s| > 0 && rank(s[0].1) > rank(e.1) {
      InsertDescPerm(s[1..], e, rank);
      assert s == [s[0]] + s[1..];
    }
  }

  /** Sorting is a permutation. */
  lemma {:induction false} SortDescPerm<K, V>(d: Dict<K, V>, rank: V -> real)
    ensures multiset(SortDesc(d, rank)) == multiset(d)
  {
    if |d| > 0 {
      SortDescPerm(d[1..], rank);
      InsertDescPerm(SortDesc(d[1..], rank), d[0], rank);
      assert d == [d[0]] + d[1..];
    }
  }

  lemma {:induction false} InsertDescSorted<K, V>(s: Dict<K, V>, e: (K, V), rank: V -> real)
    requires SortedDesc(s, rank)
    ensures SortedDesc(InsertDesc(s, e, rank), rank)
    decreases |s|
  {
    var r := InsertDesc(s, e, rank);
    if |s| > 0 && rank(s[0].1) > rank(e.1) {
      var tail := InsertDesc(s[1..], e, rank);
      InsertDescSorted(s[1..], e, rank);
      InsertDescPerm(s[1..], e, rank);
      forall j | 0 <= j < |tail| ensures rank(s[0].1) >= rank(tail[j].1) {
        assert tail[j] in multiset(s[1..]) + multiset{e};
        if tail[j] != e {
          var k :| 0 <= k < |s[1..]| && s[1..][k] == tail[j];
          assert s[k + 1] == tail[j];
        }
      }
    }
  }

  /** The result is sorted by non-increasing rank. */
  lemma {:induction false} SortDescSorted<K, V>(d: Dict<K, V>, rank: V -> real)
    ensures SortedDesc(SortDesc(d, rank), rank)
  {
    if |d| > 0 {
      SortDescSorted(d[1..], rank);
      InsertDescSorted(SortDesc(d[1..], rank), d[0], rank);
    }
  }

  /** Whether an item's rank is `v`. */
  function RankIs<K, V>(rank: V -> real, v: real): ((K, V)) -> bool {
    (x: (K, V)) => rank(x.1) == v
  }

  /** The items of `s` whose rank is `v`, in order. */
  function WithRank<K, V>(s: Dict<K, V>, rank: V -> real, v: real): Dict<K, V> {
    Filter(s, RankIs(rank, v))
  }

  /** The one-element filter. */
  lemma {:induction false} FilterSingle<T>(x: T, p: T -> bool)
    ensures Filter([x], p) == if p(x) then [x] else []
  {
    assert [x][..0] == [];
  }

  /** Filtering a sequence with a first element in front. */
  lemma {:induction false} FilterCons<T>(x: T, s: seq<T>, p: T -> bool)
    ensures Filter([x] + s, p) == (if p(x) then [x] else []) + Filter(s, p)
  {
    FilterAppend([x], s, p);
    FilterSingle(x, p);
  }

  /** Filtering a non-empty sequence: its head, then its tail. */
  lemma {:induction false} FilterHead<T>(s: seq<T>, p: T -> bool)
    requires |s| > 0
    ensures Filter(s, p) == (if p(s[0]) then [s[0]] else []) + Filter(s[1..], p)
  {
    FilterCons(s[0], s[1..], p);
    assert [s[0]] + s[1..] == s;
  }

  /** Two prefixes commute when one of them is empty. */
  lemma {:induction false} SwapFront<T>(a: seq<T>, b: seq<T>, c: seq<T>)
    requires a == [] || b == []
    ensures a + (b + c) == b + (a + c)
  {
    if a == [] {
      assert a + (b + c) == b + c;
      assert a + c == c;
    } else {
      assert b + c == c;
      assert b + (a + c) == a + c;
    }
  }

  /** Inserting puts `e` among the items of its rank before all of them. */
  lemma {:induction false} InsertDescWithRank<K, V>(s: Dict<K, V>, e: (K, V), rank: V -> real, v: real)
    ensures WithRank(InsertDesc(s, e, rank), rank, v)
         == (if rank(e.1) == v then [e] else []) + WithRank(s, rank, v)
    decreases |s|
  {
    var p := RankIs(rank, v);
    if |s| > 0 && rank(s[0].1) > rank(e.1) {
      var tail := InsertDesc(s[1..], e, rank);
      var front: Dict<K, V> := if p(e) then [e] else [];
      var head: Dict<K, V> := if p(s[0]) then [s[0]] else [];
      var rest := Filter(s[1..], p);
      assert InsertDesc(s, e, rank) == [s[0]] + tail;
      assert Filter(tail, p) == front + rest by {
        InsertDescWithRank(s[1..], e, rank, v);
      }
      assert Filter([s[0]] + tail, p) == head + (front + rest) by {
        FilterCons(s[0], tail, p);
      }
      assert Filter(s, p) == head + rest by {
        FilterHead(s, p);
      }
      SwapFront(head, front, rest);
    } else if |s| > 0 {
      assert InsertDesc(s, e, rank) == [e] + s;
      FilterCons(e, s, p);
    } else {
      FilterSingle(e, p);
    }
  }

  /** Stability: the items of any one rank keep their input order. */
  lemma {:induction false} SortDescStable<K, V>(d: Dict<K, V>, rank: V -> real, v: real)
    ensures WithRank(SortDesc(d, rank), rank, v) == WithRank(d, rank, v)
  {
    if |d| > 0 {
      var p := RankIs(rank, v);
      SortDescStable(d[1..], rank, v);
      InsertDescWithRank(SortDesc(d[1..], rank), d[0], rank, v);
      FilterHead(d, p);
    }
  }

  /** `s[0:n]`. */
  function Take<T>(s: seq<T>, n: nat): (r: seq<T>)
    ensures |r| == if n <= |s| then n else |s|
    ensures forall i | 0 <= i < |r| :: r[i] == s[i]
  {
    if n <= |s| then s[..n] else s
  }

  /** Sorting a dict keeps its keys distinct. */
  lemma SortDescDistinct<K(!new), V>(d: Dict<K, V>, rank: V -> real)
    requires DistinctKeys(d)
    ensures DistinctKeys(SortDesc(d, rank))
  {
    var r := SortDesc(d, rank);
    SortDescPerm(d, rank);
    forall i, j | 0 <= i < j < |r| ensures Keys(r)[i] != Keys(r)[j] {
      assert r[i] in multiset(d) && r[j] in multiset(d);
      var a :| 0 <= a < |d| && d[a] == r[i];
      var b :| 0 <= b < |d| && d[b] == r[j];
      if r[i].0 == r[j].0 {
        assert Keys(d)[a] == Keys(d)[b];
        assert a == b;
        assert r[i] == r[j];
        CountTwo(r, i, j);
        DistinctItems(d);
      }
    }
  }

  /** An item at two positions occurs at least twice. */
  lemma CountTwo<T>(s: seq<T>, i: nat, j: nat)
    requires i < j < |s| && s[i] == s[j]
    ensures multiset(s)[s[i]] >= 2
  {
    assert s == s[..j] + [s[j]] + s[j + 1..];
    assert s[..j] == s[..i] + [s[i]] + s[i + 1..j];
  }

  /** In a dict every item occurs once. */
  lemma {:induction false} DistinctItems<K(!new), V>(d: Dict<K, V>)
    requires DistinctKeys(d)
    ensures forall x | x in multiset(d) :: multiset(d)[x] == 1
  {
    if |d| > 0 {
      var init := d[..|d| - 1];
      var last := d[|d| - 1];
      assert d == init + [last];
      assert DistinctKeys(init) by {
        assert forall i | 0 <= i < |init| :: Keys(init)[i] == Keys(d)[i];
      }
      DistinctItems(init);
      forall k | 0 <= k < |init| ensures init[k] != last {
        assert Keys(d)[k] != Keys(d)[|d| - 1];
      }
      assert last !in multiset(init);
    }
  }

  /** Cutting the tail of `s` at `k - 1` is cutting `s` at `k`. */
  lemma ConsSplit<T>(s: seq<T>, e: T, k: nat)
    requires 0 < k <= |s|
    ensures [s[0]] + (s[1..][..k - 1] + [e] + s[1..][k - 1..]) == s[..k] + [e] + s[k..]
  {
    assert s[1..][..k - 1] == s[1..k];
    assert s[1..][k - 1..] == s[k..];
    assert [s[0]] + s[1..k] == s[..k];
  }

  /** Where `InsertDesc` puts the new item: after the items ranked strictly
      above it, before the rest. */
  lemma {:induction false} InsertDescAt<K, V>(s: Dict<K, V>, e: (K, V), rank: V -> real, k: nat)
    requires k <= |s|
    requires forall i | 0 <= i < k :: rank(s[i].1) > rank(e.1)
    requires k < |s| ==> rank(s[k].1) <= rank(e.1)
    ensures InsertDesc(s, e, rank) == s[..k] + [e] + s[k..]
    decreases k
  {
    if k == 0 {
      assert s[..0] + [e] + s[0..] == [e] + s;
    } else {
      var tail := s[1..];
      assert rank(s[0].1) > rank(e.1);
      forall i | 0 <= i < k - 1
        ensures rank(tail[i].1) > rank(e.1)
      {
        assert tail[i] == s[i + 1];
      }
      InsertDescAt(tail, e, rank, k - 1);
      ConsSplit(s, e, k);
    }
  }

  /** An item ranked strictly above the new one stays in front of it. */
  lemma InsertDescPast<K, V>(s: Dict<K, V>, e: (K, V), rank: V -> real, r: Dict<K, V>)
    requires |s| > 0 && rank(s[0].1) > rank(e.1) && InsertDesc(s[1..], e, rank) == r
    ensures InsertDesc(s, e, rank) == [s[0]] + r
  {
  }

  /** Sorting one more item in front inserts it after the items ranked
      strictly above it. */
  lemma SortDescStep<K, V>(whole: Dict<K, V>, sorted: Dict<K, V>, next: Dict<K, V>, rank: V -> real, k: nat)
    requires |whole| > 0 && SortDesc(whole[1..], rank) == sorted && k <= |sorted|
    requires forall i | 0 <= i < k :: rank(sorted[i].1) > rank(whole[0].1)
    requires k < |sorted| ==> rank(sorted[k].1) <= rank(whole[0].1)
    requires next == sorted[..k] + [whole[0]] + sorted[k..]
    ensures SortDesc(whole, rank) == next
  {
    InsertDescAt(sorted, whole[0], rank, k);
  }

  /** `sort_cities`: the first `n` items of the descending sort, as a dict. */
  function SortCities<K(==,!new), V>(d: Dict<K, V>, n: nat, rank: V -> real): (r: Dict<K, V>)
    ensures DistinctKeys(r)
  {
    FromPairs(Take(SortDesc(d, rank), n))
  }

  /** The first `n` items of a dict are still a dict. */
  lemma TakeDistinct<K(!new), V>(s: Dict<K, V>, n: nat)
    requires DistinctKeys(s)
    ensures DistinctKeys(Take(s, n))
  {
    var t := Take(s, n);
    assert forall i | 0 <= i < |t| :: Keys(t)[i] == Keys(s)[i];
  }

  /** Once the sort is known, `sort_cities` keeps the part in front. */
  lemma SortCitiesOfSorted<K(!new), V>(d: Dict<K, V>, rank: V -> real, top: Dict<K, V>, rest: Dict<K, V>)
    requires SortDesc(d, rank) == top + rest
    requires DistinctKeys(top)
    ensures SortCities(d, |top|, rank) == top
  {
    assert (top + rest)[..|top|] == top;
    FromDistinctPairs(top);
  }

  /** For a dict, `sort_cities` keeps exactly the first `min(n, |d|)` items of
      the stable descending sort: non-increasing, all taken from the input. */
  lemma SortCitiesTop<K(!new), V>(d: Dict<K, V>, n: nat, rank: V -> real)
    requires DistinctKeys(d)
    ensures SortCities(d, n, rank) == Take(SortDesc(d, rank), n)
    ensures |SortCities(d, n, rank)| == if n <= |d| then n else |d|
    ensures SortedDesc(SortCities(d, n, rank), rank)
    ensures forall i | 0 <= i < |SortCities(d, n, rank)| :: SortCities(d, n, rank)[i] in d
  {
    var s := SortDesc(d, rank);
    var t := Take(s, n);
    assert SortCities(d, n, rank) == t by {
      SortDescDistinct(d, rank);
      TakeDistinct(s, n);
      FromDistinctPairs(t);
    }
    assert SortedDesc(t, rank) by {
      SortDescSorted(d, rank);
      forall i, j | 0 <= i < j < |t| ensures rank(t[i].1) >= rank(t[j].1) {
        assert t[i] == s[i] && t[j] == s[j];
      }
    }
    SortDescPerm(d, rank);
    forall i | 0 <= i < |t| ensures t[i] in d {
      assert t[i] == s[i];
      assert s[i] in multiset(d);
    }
  }
}
