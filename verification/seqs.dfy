/** `list(filter(p, xs))` and the list comprehensions `[x for x in xs if p(x)]`
    that the pipeline uses to select rows, vacancies and cities.
 */
module Seqs {
  import opened Results

  /** The elements of `xs` that satisfy `p`, in their original order. */
  function Filter<T>(xs: seq<T>, p: T -> bool): (r: seq<T>)
    ensures |r| <= |xs|
    ensures forall i | 0 <= i < |r| :: p(r[i]) && r[i] in xs
    ensures forall i | 0 <= i < |xs| :: p(xs[i]) ==> xs[i] in r
  {
    if |xs| == 0 then []
    else
      var init := xs[..|xs| - 1];
      var r := Filter(init, p) + (if p(xs[|xs| - 1]) then [xs[|xs| - 1]] else []);
      assert forall i | 0 <= i < |init| :: init[i] == xs[i];
      r
  }

  /** Filtering distributes over concatenation: the order of the input is kept. */
  lemma {:induction false} FilterAppend<T>(a: seq<T>, b: seq<T>, p: T -> bool)
    ensures Filter(a + b, p) == Filter(a, p) + Filter(b, p)
    decreases |b|
  {
    if |b| == 0 {
      assert a + b == a;
    } else {
      var b' := b[..|b| - 1];
      assert (a + b)[..|a + b| - 1] == a + b';
      FilterAppend(a, b', p);
    }
  }

  /** Each element is kept as often as it occurs when it satisfies `p`, and
      dropped otherwise. */
  lemma {:induction false} FilterCount<T>(xs: seq<T>, p: T -> bool, x: T)
    ensures multiset(Filter(xs, p))[x] == if p(x) then multiset(xs)[x] else 0
  {
    if |xs| > 0 {
      var init := xs[..|xs| - 1];
      assert xs == init + [xs[|xs| - 1]];
      FilterCount(init, p, x);
    }
  }

  /** Filtering with a predicate every element satisfies changes nothing. */
  lemma {:induction false} FilterAll<T>(xs: seq<T>, p: T -> bool)
    requires forall i | 0 <= i < |xs| :: p(xs[i])
    ensures Filter(xs, p) == xs
  {
    if |xs| > 0 {
      var init := xs[..|xs| - 1];
      assert forall i | 0 <= i < |init| :: init[i] == xs[i];
      FilterAll(init, p);
    }
  }

  /** Filtering twice with the same predicate is filtering once. */
  lemma FilterIdempotent<T>(xs: seq<T>, p: T -> bool)
    ensures Filter(Filter(xs, p), p) == Filter(xs, p)
  {
    FilterAll(Filter(xs, p), p);
  }

  /** Whether a predicate that may raise answers `True`. */
  function Holds<T>(p: T -> Result<bool>): T -> bool {
    (x: T) => p(x) == Ok(true)
  }

  /** `list(filter(p, xs))` when `p` may raise: the elements are tested in
      order, so the first element whose test raises names the error. */
  function FilterOk<T>(xs: seq<T>, p: T -> Result<bool>): (r: Result<seq<T>>)
    ensures r.Ok? <==> forall i | 0 <= i < |xs| :: p(xs[i]).Ok?
    ensures r.Ok? ==> r.value == Filter(xs, Holds(p))
    ensures r.Fail? ==> exists i | 0 <= i < |xs| ::
      p(xs[i]) == Fail(r.error) && forall j | 0 <= j < i :: p(xs[j]).Ok?
  {
    if |xs| == 0 then Ok([])
    else
      var n := |xs| - 1;
      var init := xs[..n];
      assert forall i | 0 <= i < n :: init[i] == xs[i];
      var kept := FilterOk(init, p);
      if kept.Fail? then Fail(kept.error)
      else
        var last := p(xs[n]);
        if last.Fail? then Fail(last.error)
        else Ok(kept.value + (if last.value then [xs[n]] else []))
  }

  /** The raising filter of a concatenation: the first part's error, else
      the second part's error, else the two kept parts in order. */
  lemma FilterOkAppend<T>(a: seq<T>, b: seq<T>, p: T -> Result<bool>)
    ensures FilterOk(a + b, p)
         == if FilterOk(a, p).Fail? then FilterOk(a, p)
            else if FilterOk(b, p).Fail? then FilterOk(b, p)
            else Ok(FilterOk(a, p).value + FilterOk(b, p).value)
  {
    var ab := a + b;
    var r := FilterOk(ab, p);
    assert forall i | 0 <= i < |a| :: ab[i] == a[i];
    assert forall i | 0 <= i < |b| :: ab[|a| + i] == b[i];
    if FilterOk(a, p).Fail? {
      var i :| 0 <= i < |a| && p(a[i]) == Fail(FilterOk(a, p).error) && forall j | 0 <= j < i :: p(a[j]).Ok?;
      assert !p(ab[i]).Ok?;
      var k :| 0 <= k < |ab| && p(ab[k]) == Fail(r.error) && forall j | 0 <= j < k :: p(ab[j]).Ok?;
      assert k == i;
    } else if FilterOk(b, p).Fail? {
      var i :| 0 <= i < |b| && p(b[i]) == Fail(FilterOk(b, p).error) && forall j | 0 <= j < i :: p(b[j]).Ok?;
      assert !p(ab[|a| + i]).Ok?;
      var k :| 0 <= k < |ab| && p(ab[k]) == Fail(r.error) && forall j | 0 <= j < k :: p(ab[j]).Ok?;
      assert forall j | 0 <= j < |a| :: p(ab[j]).Ok?;
      assert forall j | |a| <= j < |a| + i :: p(ab[j]) == p(b[j - |a|]);
      assert k == |a| + i;
    } else {
      assert forall i | 0 <= i < |ab| :: p(ab[i]).Ok? by {
        forall i | 0 <= i < |ab| ensures p(ab[i]).Ok? {
          if i < |a| {
            assert ab[i] == a[i];
          } else {
            assert ab[i] == b[i - |a|];
          }
        }
      }
      FilterAppend(a, b, Holds(p));
    }
  }

  /** Once every element has passed, filtering the kept elements again keeps
      all of them. */
  lemma FilterOkAgain<T>(xs: seq<T>, p: T -> Result<bool>)
    requires FilterOk(xs, p).Ok?
    ensures FilterOk(FilterOk(xs, p).value, p) == FilterOk(xs, p)
  {
    var kept := FilterOk(xs, p).value;
    FilterAll(kept, Holds(p));
  }

  /** Applying `f` to each element in order, stopping at the first error. */
  function MapOk<A, B>(xs: seq<A>, f: A -> Result<B>): (r: Result<seq<B>>)
    ensures r.Ok? <==> forall i | 0 <= i < |xs| :: f(xs[i]).Ok?
    ensures r.Ok? ==> |r.value| == |xs| && forall i | 0 <= i < |xs| :: f(xs[i]) == Ok(r.value[i])
    ensures r.Fail? ==> exists i | 0 <= i < |xs| ::
      f(xs[i]) == Fail(r.error) && forall j | 0 <= j < i :: f(xs[j]).Ok?
  {
    if |xs| == 0 then Ok([])
    else
      var n := |xs| - 1;
      var init := xs[..n];
      assert forall i | 0 <= i < n :: init[i] == xs[i];
      var done := MapOk(init, f);
      if done.Fail? then Fail(done.error)
      else
        var last := f(xs[n]);
        if last.Fail? then Fail(last.error)
        else Ok(done.value + [last.value])
  }
}
