/** Python dicts, which remember insertion order, as sequences of
    (key, value) items; `Counter` and the grouping loops of the pipeline
    are folds of `d[k] = v` over such sequences.
 */
module OrderedMaps {
  import opened Results

  /** The items of a dict, in insertion order. */
  type Dict<K, V> = seq<(K, V)>

  /** No element occurs twice. */
  predicate Distinct<K(==)>(xs: seq<K>) {
    forall i, j | 0 <= i < j < |xs| :: xs[i] != xs[j]
  }

  function Keys<K, V>(d: Dict<K, V>): (r: seq<K>)
    ensures |r| == |d|
    ensures forall i | 0 <= i < |d| :: r[i] == d[i].0
  {
    if |d| == 0 then [] else [d[0].0] + Keys(d[1..])
  }

  function Values<K, V>(d: Dict<K, V>): (r: seq<V>)
    ensures |r| == |d|
    ensures forall i | 0 <= i < |d| :: r[i] == d[i].1
  {
    if |d| == 0 then [] else [d[0].1] + Values(d[1..])
  }

  /** The items of a real dict: every key once. */
  predicate DistinctKeys<K(==,!new), V>(d: Dict<K, V>) {
    Distinct(Keys(d))
  }

  /** The key of an item is among the keys. */
  lemma KeyOfItem<K, V>(d: Dict<K, V>, item: (K, V))
    requires item in d
    ensures item.0 in Keys(d)
  {
    var k :| 0 <= k < |d| && d[k] == item;
    assert Keys(d)[k] == item.0;
  }

  /** `d.get(k)`. */
  function Get<K(==,!new), V>(d: Dict<K, V>, k: K): Option<V>
  {
    if |d| == 0 then None else if d[0].0 == k then Some(d[0].1) else Get(d[1..], k)
  }

  /** The lookup finds nothing exactly when the key is absent. */
  lemma {:induction false} GetNone<K(!new), V>(d: Dict<K, V>, k: K)
    ensures Get(d, k).None? <==> k !in Keys(d)
  {
    if |d| > 0 {
      assert Keys(d) == [d[0].0] + Keys(d[1..]);
      GetNone(d[1..], k);
    }
  }

  /** In a dict, the lookup of the i-th key finds the i-th value. */
  lemma {:induction false} GetAt<K(!new), V>(d: Dict<K, V>, i: nat)
    requires DistinctKeys(d) && i < |d|
    ensures Get(d, d[i].0) == Some(d[i].1)
  {
    if i > 0 {
      assert DistinctKeys(d[1..]) by {
        assert Keys(d[1..]) == Keys(d)[1..];
      }
      assert d[0].0 != d[i].0 by {
        assert Keys(d)[0] != Keys(d)[i];
      }
      GetAt(d[1..], i - 1);
    }
  }

  /** `d[k]` for a key known to be present. */
  function Lookup<K(==,!new), V>(d: Dict<K, V>, k: K): (r: V)
    requires k in Keys(d)
    ensures Get(d, k) == Some(r)
  {
    GetNone(d, k);
    Get(d, k).value
  }

  /** `d[k]`: the value under `k`, or KeyError when `k` is absent. */
  function At<K(==,!new), V>(d: Dict<K, V>, k: K): (r: Result<V>)
    ensures r.Fail? <==> k !in Keys(d)
    ensures r.Fail? ==> r.error == KeyError
    ensures r.Ok? ==> Get(d, k) == Some(r.value)
  {
    GetNone(d, k);
    if Get(d, k).None? then Fail(KeyError) else Ok(Get(d, k).value)
  }

  /** `d[k] = v`: an existing key keeps its place, a new key goes last. */
  function Put<K(==,!new), V>(d: Dict<K, V>, k: K, v: V): (r: Dict<K, V>)
    ensures Keys(r) == if k in Keys(d) then Keys(d) else Keys(d) + [k]
  {
    if |d| == 0 then [(k, v)]
    else if d[0].0 == k then [(k, v)] + d[1..]
    else
      var r := [d[0]] + Put(d[1..], k, v);
      assert Keys(r) == [d[0].0] + Keys(Put(d[1..], k, v));
      assert Keys(d) == [d[0].0] + Keys(d[1..]);
      r
  }

  /** After `d[k] = v`, `k` maps to `v` and every other key to what it mapped to. */
  lemma {:induction false} PutGet<K(!new), V>(d: Dict<K, V>, k: K, v: V)
    ensures Get(Put(d, k, v), k) == Some(v)
    ensures forall k' | k' != k :: Get(Put(d, k, v), k') == Get(d, k')
  {
    if |d| > 0 && d[0].0 != k {
      PutGet(d[1..], k, v);
    }
  }

  lemma DistinctAppend<K(!new)>(xs: seq<K>, x: K)
    requires Distinct(xs) && x !in xs
    ensures Distinct(xs + [x])
  {
  }

  /** Assignment keeps the keys of a dict distinct. */
  lemma PutDistinct<K(!new), V>(d: Dict<K, V>, k: K, v: V)
    requires DistinctKeys(d)
    ensures DistinctKeys(Put(d, k, v))
  {
    if k !in Keys(d) {
      DistinctAppend(Keys(d), k);
    }
  }

  /** Assigning a key that is not there appends the item. */
  lemma {:induction false} PutNewKey<K(!new), V>(d: Dict<K, V>, k: K, v: V)
    requires k !in Keys(d)
    ensures Put(d, k, v) == d + [(k, v)]
  {
    if |d| > 0 {
      assert k != Keys(d)[0];
      assert Keys(d[1..]) == Keys(d)[1..];
      PutNewKey(d[1..], k, v);
      assert d == [d[0]] + d[1..];
    }
  }

  /** `dict(pairs)` / `dict(zip(ks, vs))`: later duplicates overwrite earlier ones. */
  function FromPairs<K(==,!new), V>(ps: seq<(K, V)>): (r: Dict<K, V>)
    ensures DistinctKeys(r)
  {
    if |ps| == 0 then []
    else
      var d := FromPairs(ps[..|ps| - 1]);
      PutDistinct(d, ps[|ps| - 1].0, ps[|ps| - 1].1);
      Put(d, ps[|ps| - 1].0, ps[|ps| - 1].1)
  }

  lemma KeysOfPrefix<K, V>(d: Dict<K, V>, n: nat)
    requires n <= |d|
    ensures Keys(d[..n]) == Keys(d)[..n]
  {
  }

  /** The last key of a dict with distinct keys is not among the others. */
  lemma LastKeyFresh<K(!new), V>(ps: seq<(K, V)>)
    requires DistinctKeys(ps) && |ps| > 0
    ensures DistinctKeys(ps[..|ps| - 1])
    ensures ps[|ps| - 1].0 !in Keys(ps[..|ps| - 1])
  {
    var n := |ps| - 1;
    KeysOfPrefix(ps, n);
    forall i | 0 <= i < n
      ensures Keys(ps[..n])[i] != ps[n].0
    {
      assert Keys(ps)[i] != Keys(ps)[n];
    }
  }

  /** A non-empty sequence is its last element appended to the rest. */
  lemma {:induction false} SplitLast<T>(s: seq<T>)
    requires |s| > 0
    ensures s[..|s| - 1] + [s[|s| - 1]] == s
  {
  }

  /** Items that already have distinct keys make the dict unchanged. */
  lemma {:induction false} FromDistinctPairs<K(!new), V>(ps: seq<(K, V)>)
    requires DistinctKeys(ps)
    ensures FromPairs(ps) == ps
  {
    if |ps| > 0 {
      var n := |ps| - 1;
      LastKeyFresh(ps);
      FromDistinctPairs(ps[..n]);
      PutNewKey(ps[..n], ps[n].0, ps[n].1);
      SplitLast(ps);
    }
  }

  /** A dict with each value replaced by `f` of it, keys in place. */
  function Project<K, A, B>(d: Dict<K, A>, f: A -> B): (r: Dict<K, B>)
    ensures |r| == |d| && Keys(r) == Keys(d)
    ensures forall i | 0 <= i < |d| :: r[i] == (d[i].0, f(d[i].1))
  {
    seq(|d|, i requires 0 <= i < |d| => (d[i].0, f(d[i].1)))
  }

  /** Projecting a dict and rebuilding it with `dict` changes nothing else. */
  lemma ProjectFromPairs<K(!new), A, B>(d: Dict<K, A>, f: A -> B)
    requires DistinctKeys(d)
    ensures FromPairs(Project(d, f)) == Project(d, f)
  {
    FromDistinctPairs(Project(d, f));
  }

  // ---- first occurrences ----------------------------------------------------

  /** The position of the first `x` in `xs`. */
  function FirstIndex<K(==,!new)>(xs: seq<K>, x: K): (i: nat)
    requires x in xs
    ensures i < |xs| && xs[i] == x && x !in xs[..i]
  {
    if xs[0] == x then 0
    else
      var i := 1 + FirstIndex(xs[1..], x);
      assert xs[..i] == [xs[0]] + xs[1..][..i - 1];
      i
  }

  lemma FirstIndexOfPrefix<K(!new)>(xs: seq<K>, n: nat, x: K)
    requires n <= |xs| && x in xs[..n]
    ensures x in xs && FirstIndex(xs, x) == FirstIndex(xs[..n], x)
  {
    var i := FirstIndex(xs[..n], x);
    var j := FirstIndex(xs, x);
    assert xs[..n][..i] == xs[..i];
  }

  /** The distinct elements of `xs` in the order of their first occurrence. */
  function FirstOccurrences<K(==,!new)>(xs: seq<K>): (r: seq<K>)
    ensures Distinct(r)
    ensures forall x :: x in r <==> x in xs
    ensures forall i, j | 0 <= i < j < |r| :: FirstIndex(xs, r[i]) < FirstIndex(xs, r[j])
  {
    if |xs| == 0 then []
    else
      var init := xs[..|xs| - 1];
      var last := xs[|xs| - 1];
      var d := FirstOccurrences(init);
      assert xs == init + [last];
      forall x | x in init ensures FirstIndex(xs, x) == FirstIndex(init, x) {
        FirstIndexOfPrefix(xs, |xs| - 1, x);
      }
      if last in d then d
      else
        var r := d + [last];
        assert FirstIndex(xs, last) == |xs| - 1 by {
          assert last !in xs[..|xs| - 1];
        }
        r
  }

  // ---- Counter --------------------------------------------------------------

  /** `Counter(xs)` (and the per-city counting loop `d[k] += 1`): each
      distinct element with the number of its occurrences. */
  function Tally<K(==,!new)>(xs: seq<K>): Dict<K, nat>
  {
    if |xs| == 0 then [] else Increment(Tally(xs[..|xs| - 1]), xs[|xs| - 1])
  }

  /** `d[k] = 1` for a new key, `d[k] += 1` for a known one. */
  function Increment<K(==,!new)>(d: Dict<K, nat>, k: K): Dict<K, nat>
  {
    match Get(d, k)
    case None => Put<K, nat>(d, k, 1)
    case Some(n) => Put<K, nat>(d, k, n + 1)
  }

  /** One count: the keys, the lookups and (for a dict) the total after
      `d[k] += 1`. */
  lemma {:induction false} IncrementFacts<K(!new)>(d: Dict<K, nat>, k: K)
    ensures Keys(Increment(d, k)) == if k in Keys(d) then Keys(d) else Keys(d) + [k]
    ensures Get(Increment(d, k), k) == Some(if Get(d, k).None? then 1 else Get(d, k).value + 1)
    ensures forall k' | k' != k :: Get(Increment(d, k), k') == Get(d, k')
    ensures DistinctKeys(d) ==> DistinctKeys(Increment(d, k))
    ensures DistinctKeys(d) ==> SumValues(Increment(d, k)) == SumValues(d) + 1
  {
    var n: nat := if Get(d, k).None? then 1 else Get(d, k).value + 1;
    assert Increment(d, k) == Put<K, nat>(d, k, n);
    PutFacts(d, k, n);
  }

  /** `PutGet`, `PutDistinct` and `SumValuesPut` for a counting dict. */
  lemma {:induction false} PutFacts<K(!new)>(d: Dict<K, nat>, k: K, n: nat)
    ensures Get(Put<K, nat>(d, k, n), k) == Some(n)
    ensures forall k' | k' != k :: Get(Put<K, nat>(d, k, n), k') == Get(d, k')
    ensures DistinctKeys(d) ==> DistinctKeys(Put<K, nat>(d, k, n))
    ensures DistinctKeys(d) ==> SumValues(Put<K, nat>(d, k, n)) == SumValues(d) + n - (if Get(d, k).None? then 0 else Get(d, k).value)
  {
    PutGet<K, nat>(d, k, n);
    if DistinctKeys(d) {
      PutDistinct<K, nat>(d, k, n);
      SumValuesPut(d, k, n);
    }
  }

  /** A tally is a dict: every counted element is a key once. */
  lemma {:induction false} TallyDistinct<K(!new)>(xs: seq<K>)
    ensures DistinctKeys(Tally(xs))
  {
    if |xs| > 0 {
      TallyDistinct(xs[..|xs| - 1]);
      IncrementFacts(Tally(xs[..|xs| - 1]), xs[|xs| - 1]);
    }
  }

  /** The keys of a tally are the counted elements in first-occurrence order. */
  lemma {:induction false} TallyKeys<K(!new)>(xs: seq<K>)
    ensures Keys(Tally(xs)) == FirstOccurrences(xs)
  {
    if |xs| > 0 {
      TallyKeys(xs[..|xs| - 1]);
      IncrementFacts(Tally(xs[..|xs| - 1]), xs[|xs| - 1]);
    }
  }

  /** Occurrences in a sequence against those in all but its last element. */
  lemma {:induction false} MultisetSnoc<K>(xs: seq<K>, k: K)
    requires |xs| > 0
    ensures multiset(xs)[k] == multiset(xs[..|xs| - 1])[k] + (if k == xs[|xs| - 1] then 1 else 0)
    ensures k in xs <==> k in xs[..|xs| - 1] || k == xs[|xs| - 1]
  {
    SplitLast(xs);
    assert multiset(xs) == multiset(xs[..|xs| - 1]) + multiset{xs[|xs| - 1]};
  }

  /** A tally maps every counted element to its number of occurrences and
      knows no other key. */
  lemma {:induction false} TallyCounts<K(!new)>(xs: seq<K>, k: K)
    ensures Get(Tally(xs), k) == if k in xs then Some(multiset(xs)[k]) else None
  {
    if |xs| > 0 {
      var init := xs[..|xs| - 1];
      var last := xs[|xs| - 1];
      var d := Tally(init);
      assert Tally(xs) == Increment(d, last);
      MultisetSnoc(xs, k);
      IncrementFacts(d, last);
      TallyCounts(init, k);
      if k == last {
        assert Get(Tally(xs), k) == Some(if Get(d, k).None? then 1 else Get(d, k).value + 1);
      } else {
        assert Get(Tally(xs), k) == Get(d, k);
      }
    }
  }

  /** The sum of the values of a counting dict. */
  function SumValues<K>(d: Dict<K, nat>): nat
  {
    if |d| == 0 then 0 else d[0].1 + SumValues(d[1..])
  }

  lemma {:induction false} SumValuesPut<K(!new)>(d: Dict<K, nat>, k: K, v: nat)
    requires DistinctKeys(d)
    ensures Get(d, k).Some? ==> SumValues(Put<K, nat>(d, k, v)) + Get(d, k).value == SumValues(d) + v
    ensures Get(d, k).None? ==> SumValues(Put<K, nat>(d, k, v)) == SumValues(d) + v
  {
    if |d| > 0 {
      assert Keys(d[1..]) == Keys(d)[1..];
      if d[0].0 == k {
        assert k !in Keys(d[1..]) by {
          forall i | 0 <= i < |d| - 1 ensures Keys(d[1..])[i] != k {
            assert Keys(d)[0] != Keys(d)[i + 1];
          }
        }
        assert Put<K, nat>(d, k, v)[1..] == d[1..];
      } else {
        SumValuesPut(d[1..], k, v);
        assert Put<K, nat>(d, k, v)[1..] == Put<K, nat>(d[1..], k, v);
      }
    }
  }

  /** The counts of a tally add up to the number of counted elements. */
  lemma {:induction false} TallySum<K(!new)>(xs: seq<K>)
    ensures SumValues(Tally(xs)) == |xs|
  {
    if |xs| > 0 {
      TallyDistinct(xs[..|xs| - 1]);
      TallySum(xs[..|xs| - 1]);
      IncrementFacts(Tally(xs[..|xs| - 1]), xs[|xs| - 1]);
    }
  }

  // ---- grouping -------------------------------------------------------------

  /** The values of the items whose key is `k`, in order. */
  function Select<K(==,!new), V>(xs: seq<(K, V)>, k: K): seq<V>
  {
    if |xs| == 0 then []
    else Select(xs[..|xs| - 1], k) + (if xs[|xs| - 1].0 == k then [xs[|xs| - 1].1] else [])
  }

  /** The grouping loop `if k not in d: d[k] = []` then `d[k].append(v)`. */
  function GroupBy<K(==,!new), V>(xs: seq<(K, V)>): Dict<K, seq<V>>
  {
    if |xs| == 0 then [] else AppendTo(GroupBy(xs[..|xs| - 1]), xs[|xs| - 1].0, xs[|xs| - 1].1)
  }

  /** `d[k] = []` for a new key, then `d[k].append(v)`. */
  function AppendTo<K(==,!new), V>(d: Dict<K, seq<V>>, k: K, v: V): Dict<K, seq<V>>
  {
    match Get(d, k)
    case None => Put(d, k, [v])
    case Some(g) => Put(d, k, g + [v])
  }

  /** One grouping step: the keys and the lookups after appending `v` to
      the group of `k`. */
  lemma {:induction false} AppendToFacts<K(!new), V>(d: Dict<K, seq<V>>, k: K, v: V)
    ensures Keys(AppendTo(d, k, v)) == if k in Keys(d) then Keys(d) else Keys(d) + [k]
    ensures Get(AppendTo(d, k, v), k) == Some(if Get(d, k).None? then [v] else Get(d, k).value + [v])
    ensures forall k' | k' != k :: Get(AppendTo(d, k, v), k') == Get(d, k')
    ensures DistinctKeys(d) ==> DistinctKeys(AppendTo(d, k, v))
  {
    var g := if Get(d, k).None? then [v] else Get(d, k).value + [v];
    assert AppendTo(d, k, v) == Put(d, k, g);
    PutGet(d, k, g);
    if DistinctKeys(d) {
      PutDistinct(d, k, g);
    }
  }

  /** The groups form a dict: every key once. */
  lemma {:induction false} GroupDistinct<K(!new), V>(xs: seq<(K, V)>)
    ensures DistinctKeys(GroupBy(xs))
  {
    if |xs| > 0 {
      var (k, v) := xs[|xs| - 1];
      GroupDistinct(xs[..|xs| - 1]);
      AppendToFacts(GroupBy(xs[..|xs| - 1]), k, v);
    }
  }

  /** Selecting after appending one more item. */
  lemma {:induction false} SelectSnoc<K(!new), V>(xs: seq<(K, V)>, k: K)
    requires |xs| > 0
    ensures var init := xs[..|xs| - 1];
            Select(xs, k) == Select(init, k) + (if xs[|xs| - 1].0 == k then [xs[|xs| - 1].1] else [])
            && Keys(xs) == Keys(init) + [xs[|xs| - 1].0]
  {
  }

  /** The groups appear in the first-occurrence order of their keys. */
  lemma {:induction false} GroupKeys<K(!new), V>(xs: seq<(K, V)>)
    ensures Keys(GroupBy(xs)) == FirstOccurrences(Keys(xs))
  {
    if |xs| > 0 {
      var init := xs[..|xs| - 1];
      var (k, v) := xs[|xs| - 1];
      SelectSnoc(xs, k);
      GroupKeys(init);
      AppendToFacts(GroupBy(init), k, v);
    }
  }

  /** The group of a key holds the values of exactly the items with that key,
      in input order; keys that do not occur have no group. */
  lemma {:induction false} GroupContents<K(!new), V>(xs: seq<(K, V)>, k: K)
    ensures Get(GroupBy(xs), k) == if k in Keys(xs) then Some(Select(xs, k)) else None
  {
    if |xs| > 0 {
      var init := xs[..|xs| - 1];
      GroupContents(init, k);
      if k == xs[|xs| - 1].0 {
        GroupContentsLast(xs);
      } else {
        GroupContentsOther(xs, k);
      }
    }
  }

  /** The key of the last item: its group gains the last value. */
  lemma GroupContentsLast<K(!new), V>(xs: seq<(K, V)>)
    requires |xs| > 0
    requires var init, k := xs[..|xs| - 1], xs[|xs| - 1].0;
             Get(GroupBy(init), k) == if k in Keys(init) then Some(Select(init, k)) else None
    ensures Get(GroupBy(xs), xs[|xs| - 1].0) == Some(Select(xs, xs[|xs| - 1].0))
  {
    var init := xs[..|xs| - 1];
    var (k, v) := xs[|xs| - 1];
    var d := GroupBy(init);
    assert GroupBy(xs) == AppendTo(d, k, v);
    SelectSnoc(xs, k);
    AppendToFacts(d, k, v);
    if k in Keys(init) {
      assert Get(d, k).value + [v] == Select(xs, k);
    } else {
      SelectAbsent(init, k);
      assert [v] == Select(xs, k);
    }
  }

  /** Any other key keeps its group. */
  lemma GroupContentsOther<K(!new), V>(xs: seq<(K, V)>, k: K)
    requires |xs| > 0 && k != xs[|xs| - 1].0
    requires var init := xs[..|xs| - 1];
             Get(GroupBy(init), k) == if k in Keys(init) then Some(Select(init, k)) else None
    ensures Get(GroupBy(xs), k) == if k in Keys(xs) then Some(Select(xs, k)) else None
  {
    var init := xs[..|xs| - 1];
    var (last, v) := xs[|xs| - 1];
    var d := GroupBy(init);
    assert GroupBy(xs) == AppendTo(d, last, v);
    SelectSnoc(xs, k);
    AppendToFacts(d, last, v);
    assert Get(GroupBy(xs), k) == Get(d, k);
    assert Keys(xs) == Keys(init) + [last];
    assert Select(xs, k) == Select(init, k);
  }

  /** A key's group has as many values as the key has occurrences. */
  lemma {:induction false} SelectSize<K(!new), V>(xs: seq<(K, V)>, k: K)
    ensures |Select(xs, k)| == multiset(Keys(xs))[k]
  {
    if |xs| > 0 {
      var init := xs[..|xs| - 1];
      SelectSnoc(xs, k);
      MultisetSnoc(Keys(xs), k);
      assert Keys(xs)[..|xs| - 1] == Keys(init);
      SelectSize(init, k);
    }
  }

  lemma {:induction false} SelectAbsent<K(!new), V>(xs: seq<(K, V)>, k: K)
    requires k !in Keys(xs)
    ensures Select(xs, k) == []
  {
    if |xs| > 0 {
      var init := xs[..|xs| - 1];
      assert Keys(xs) == Keys(init) + [xs[|xs| - 1].0];
      SelectAbsent(init, k);
    }
  }

  /** The size of every group. */
  function Sizes<K, V>(d: Dict<K, seq<V>>): (r: Dict<K, nat>)
    ensures Keys(r) == Keys(d)
    ensures forall i | 0 <= i < |d| :: r[i].1 == |d[i].1|
  {
    if |d| == 0 then [] else [(d[0].0, |d[0].1|)] + Sizes(d[1..])
  }

  /** Every element lands in exactly one group: the group sizes are the
      tally of the keys, so they add up to the number of elements. */
  lemma {:induction false} GroupSizes<K(!new), V>(xs: seq<(K, V)>)
    ensures Sizes(GroupBy(xs)) == Tally(Keys(xs))
    ensures SumValues(Sizes(GroupBy(xs))) == |xs|
  {
    var g := GroupBy(xs);
    var s := Sizes(g);
    var t := Tally(Keys(xs));
    GroupDistinct(xs);
    TallyDistinct(Keys(xs));
    GroupKeys(xs);
    TallyKeys(Keys(xs));
    assert |s| == |t|;
    forall i | 0 <= i < |s| ensures s[i] == t[i] {
      var k := t[i].0;
      assert Keys(g)[i] == k;
      GetAt(t, i);
      GetAt(g, i);
      TallyCounts(Keys(xs), k);
      GroupContents(xs, k);
      SelectSize(xs, k);
    }
    TallySum(Keys(xs));
  }
}
