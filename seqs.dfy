/** Sequence helpers: the `filter`, `map`, `reduce` and `includes` of the
    array code, stated once with the facts the rest of the model uses. */
module Seqs {

  import opened Wrappers

  /** Elements of `s` satisfying `p`, in order (`Array.prototype.filter`). */
  function Filter<T(==,!new)>(s: seq<T>, p: T -> bool): (r: seq<T>)
    ensures |r| <= |s|
    ensures forall x :: x in r <==> x in s && p(x)
    ensures forall k :: 0 <= k < |r| ==> p(r[k])
    decreases |s|
  {
    if s == [] then []
    else Filter(s[..|s| - 1], p) + (if p(s[|s| - 1]) then [s[|s| - 1]] else [])
  }

  /** `f` applied to each element (`Array.prototype.map`). */
  function Map<T, U>(s: seq<T>, f: T -> U): (r: seq<U>)
    ensures |r| == |s|
    ensures forall k :: 0 <= k < |s| ==> r[k] == f(s[k])
  {
    seq(|s|, k requires 0 <= k < |s| => f(s[k]))
  }

  /** No element occurs twice. */
  predicate Distinct<T(==)>(s: seq<T>) {
    forall i, j :: 0 <= i < j < |s| ==> s[i] != s[j]
  }

  /** Sum of the values, folded from the left (`reduce((sum, x) => sum + x, 0)`). */
  function Sum(xs: seq<real>): real
    decreases |xs|
  {
    if xs == [] then 0.0 else Sum(xs[..|xs| - 1]) + xs[|xs| - 1]
  }

  lemma FilterConcat<T(!new)>(a: seq<T>, b: seq<T>, p: T -> bool)
    ensures Filter(a + b, p) == Filter(a, p) + Filter(b, p)
    decreases |b|
  {
    if b == [] {
      assert a + b == a;
    } else {
      var b' := b[..|b| - 1];
      assert (a + b)[..|a + b| - 1] == a + b';
      FilterConcat(a, b', p);
    }
  }

  /** Filtering with a predicate every element meets changes nothing. */
  lemma {:induction false} FilterKeepsAll<T(!new)>(s: seq<T>, p: T -> bool)
    requires forall x :: x in s ==> p(x)
    ensures Filter(s, p) == s
    decreases |s|
  {
    if s != [] {
      FilterKeepsAll(s[..|s| - 1], p);
      assert s[..|s| - 1] + [s[|s| - 1]] == s;
    }
  }

  /** Two filters commute. */
  lemma {:induction false} FilterCommutes<T(!new)>(s: seq<T>, p: T -> bool, q: T -> bool)
    ensures Filter(Filter(s, p), q) == Filter(Filter(s, q), p)
    decreases |s|
  {
    if s != [] {
      var s', x := s[..|s| - 1], s[|s| - 1];
      FilterCommutes(s', p, q);
      FilterConcat(Filter(s', p), if p(x) then [x] else [], q);
      FilterConcat(Filter(s', q), if q(x) then [x] else [], p);
    }
  }

  /** A filter keeps the relative order of what it keeps: distinctness survives. */
  lemma {:induction false} FilterDistinct<T(!new)>(s: seq<T>, p: T -> bool)
    requires Distinct(s)
    ensures Distinct(Filter(s, p))
    decreases |s|
  {
    if s != [] {
      var s', x := s[..|s| - 1], s[|s| - 1];
      assert Distinct(s');
      FilterDistinct(s', p);
      assert x !in s';
    }
  }

  /** A filter that rejects everything yields the empty sequence. */
  lemma FilterNone<T(!new)>(s: seq<T>, p: T -> bool)
    requires forall x :: x in s ==> !p(x)
    ensures Filter(s, p) == []
  {
    if Filter(s, p) != [] {
      assert Filter(s, p)[0] in Filter(s, p);
    }
  }

  /** Every sum of values inside `[lo, hi]` lies between `|xs| * lo` and `|xs| * hi`. */
  lemma {:induction false} SumBounds(xs: seq<real>, lo: real, hi: real)
    requires forall k :: 0 <= k < |xs| ==> lo <= xs[k] <= hi
    ensures |xs| as real * lo <= Sum(xs) <= |xs| as real * hi
    decreases |xs|
  {
    if xs != [] {
      SumBounds(xs[..|xs| - 1], lo, hi);
    }
  }

  /** Arithmetic mean, missing for no values (SQL `avg`, and the
      filter-reduce-divide of the service code). */
  function Mean(xs: seq<real>): (m: Option<real>)
    ensures m.None? <==> xs == []
    ensures m.Some? ==> m.value * |xs| as real == Sum(xs)
  {
    if xs == [] then None else Some(Sum(xs) / |xs| as real)
  }

  /** The mean of values inside `[lo, hi]` lies inside `[lo, hi]`. */
  lemma MeanBounds(xs: seq<real>, lo: real, hi: real)
    requires xs != []
    requires forall k :: 0 <= k < |xs| ==> lo <= xs[k] <= hi
    ensures lo <= Mean(xs).value <= hi
  {
    SumBounds(xs, lo, hi);
    var n := |xs| as real;
    var m := Mean(xs).value;
    assert n * lo <= m * n <= n * hi;
  }

  /** Two duplicate-free sequences with nothing in common concatenate to one. */
  lemma DistinctConcat<T>(a: seq<T>, b: seq<T>)
    requires Distinct(a) && Distinct(b)
    requires forall i, j :: 0 <= i < |a| && 0 <= j < |b| ==> a[i] != b[j]
    ensures Distinct(a + b)
  {
  }

  /** Whatever a filter keeps projects into the projection of the whole. */
  lemma FilterMapSubset<T(!new), U>(s: seq<T>, p: T -> bool, f: T -> U)
    ensures forall y :: y in Map(Filter(s, p), f) ==> y in Map(s, f)
  {
    forall y | y in Map(Filter(s, p), f) ensures y in Map(s, f) {
      var k :| 0 <= k < |Filter(s, p)| && Map(Filter(s, p), f)[k] == y;
      var x := Filter(s, p)[k];
      assert x in s;
      var j :| 0 <= j < |s| && s[j] == x;
      assert Map(s, f)[j] == y;
    }
  }

  /** A filter keeps a projection that has no duplicates free of duplicates. */
  lemma {:induction false} FilterMapDistinct<T(!new), U>(s: seq<T>, p: T -> bool, f: T -> U)
    requires Distinct(Map(s, f))
    ensures Distinct(Map(Filter(s, p), f))
    decreases |s|
  {
    if s != [] {
      var s', x := s[..|s| - 1], s[|s| - 1];
      assert Map(s', f) == Map(s, f)[..|s| - 1];
      FilterMapDistinct(s', p, f);
      if p(x) {
        FilterMapSubset(s', p, f);
        assert Map(Filter(s, p), f) == Map(Filter(s', p), f) + [f(x)];
        assert f(x) !in Map(s', f);
      } else {
        assert Filter(s, p) == Filter(s', p);
      }
    }
  }
  /** A rearrangement of the projection of a filter holds exactly the
      projections of the elements the filter keeps. */
  lemma MapFilterMembers<T(!new), U(!new)>(s: seq<T>, p: T -> bool, f: T -> U, r: seq<U>)
    requires multiset(r) == multiset(Map(Filter(s, p), f))
    ensures forall y :: y in r ==> exists x :: x in s && p(x) && y == f(x)
    ensures forall x :: x in s && p(x) ==> f(x) in r
  {
    var kept := Filter(s, p);
    forall y | y in r ensures exists x :: x in s && p(x) && y == f(x) {
      assert y in multiset(Map(kept, f));
      var k :| 0 <= k < |kept| && Map(kept, f)[k] == y;
      assert kept[k] in kept;
    }
    forall x | x in s && p(x) ensures f(x) in r {
      var k :| 0 <= k < |kept| && kept[k] == x;
      assert Map(kept, f)[k] in multiset(r);
    }
  }
}
