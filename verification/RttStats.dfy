/**
 Welford's running mean and variance over round-trip times, against the batch definitions.
 Floating point is taken as exact real arithmetic.
 */
module RttStats {

  const NANOS_PER_MS: real := 1000000.0

  function Millis(d: int): real {
    d as real / NANOS_PER_MS
  }

  // ----- batch definitions

  function Total(xs: seq<real>, f: real -> real): real {
    if xs == [] then 0.0 else Total(xs[..|xs| - 1], f) + f(xs[|xs| - 1])
  }

  function Itself(): real -> real {
    x => x
  }

  function SquareFrom(m: real): real -> real {
    x => (x - m) * (x - m)
  }

  function Sum(xs: seq<real>): real {
    Total(xs, Itself())
  }

  /** Sum of squared deviations from m. */
  function Deviations(xs: seq<real>, m: real): real {
    Total(xs, SquareFrom(m))
  }

  ghost predicate IsMin(xs: seq<real>, m: real) {
    m in xs && forall x | x in xs :: m <= x
  }

  ghost predicate IsMax(xs: seq<real>, m: real) {
    m in xs && forall x | x in xs :: x <= m
  }

  function Least(xs: seq<real>): real
    requires xs != []
  {
    var front, last := xs[..|xs| - 1], xs[|xs| - 1];
    if front == [] || last < Least(front) then last else Least(front)
  }

  function Greatest(xs: seq<real>): real
    requires xs != []
  {
    var front, last := xs[..|xs| - 1], xs[|xs| - 1];
    if front == [] || last > Greatest(front) then last else Greatest(front)
  }

  lemma {:induction false} ExtremesAreExtreme(xs: seq<real>)
    requires xs != []
    ensures IsMin(xs, Least(xs)) && IsMax(xs, Greatest(xs))
  {
    var front, last := xs[..|xs| - 1], xs[|xs| - 1];
    assert xs == front + [last];
    if front != [] {
      ExtremesAreExtreme(front);
    }
  }

  ghost predicate Extremes(min: real, max: real, xs: seq<real>) {
    xs != [] ==> min == Least(xs) && max == Greatest(xs)
  }

  ghost predicate IsSum(s: real, xs: seq<real>) {
    s == Sum(xs)
  }

  /** mean times n is the samples' sum and m2 the sum of their squared deviations from it. The
      one-point quantifier keeps the product out of proofs that do not ask for it;
      MomentsExactly is the plain form. */
  ghost predicate Moments(mean: real, m2: real, n: real, xs: seq<real>) {
    forall s :: IsSum(s, xs) ==> (xs == [] ==> mean == 0.0) && mean * n == s && m2 == Deviations(xs, mean)
  }

  lemma MomentsExactly(mean: real, m2: real, n: real, xs: seq<real>)
    ensures Moments(mean, m2, n, xs)
       <==> (xs == [] ==> mean == 0.0) && mean * n == Sum(xs) && m2 == Deviations(xs, mean)
  {
    assert IsSum(Sum(xs), xs);
  }

  /** The five numbers kept are those of the sample list as a whole. */
  ghost predicate Summarises(count: nat, min: real, max: real, mean: real, m2: real, xs: seq<real>) {
    count == |xs| && Extremes(min, max, xs) && Moments(mean, m2, count as real, xs)
  }

  // ----- the running form

  class Stats {
    var count: nat
    var min: real
    var max: real
    var mean: real
    var m2: real

    ghost predicate Of(xs: seq<real>)
      reads this
    {
      Summarises(count, min, max, mean, m2, xs)
    }

    constructor ()
      ensures Of([])
    {
      count, min, max, mean, m2 := 0, 0.0, 0.0, 0.0, 0.0;
    }

    /** Adding one sample to the running numbers is adding it to the batch. */
    method Add(d: int, ghost xs: seq<real>)
      requires Of(xs)
      modifies this
      ensures Of(xs + [Millis(d)])
    {
      var ms := Millis(d);
      ghost var min0, max0, mean0, m20 := min, max, mean, m2;
      count := count + 1;
      if count == 1 {
        FirstSummary(xs, ms, mean, m2);
        min, max, mean := ms, ms, ms;
        return;
      }
      if ms < min {
        min := ms;
      }
      if ms > max {
        max := ms;
      }
      var delta := ms - mean;
      mean := mean + delta / (count as real);
      m2 := m2 + delta * (ms - mean);
      AddedExtremes(xs, ms, min0, max0, min, max);
      NextMoments(xs, ms, mean0, m20, count as real, mean, m2);
    }

    /** The quantity under the square root of mdev. */
    function Variance(): real
      reads this
    {
      if count == 0 then 0.0 else m2 / (count as real)
    }
  }

  lemma FirstSample(xs: seq<real>, x: real)
    requires xs == []
    ensures Sum(xs + [x]) == x && Deviations(xs + [x], x) == 0.0
  {
    SumSnoc(xs, x);
    DeviationsSnoc(xs, x, x);
  }

  lemma FirstSummary(xs: seq<real>, x: real, mean: real, m2: real)
    requires xs == [] && Moments(mean, m2, 0.0, xs)
    ensures Summarises(1, x, x, x, m2, xs + [x])
  {
    MomentsExactly(mean, m2, 0.0, xs);
    FirstSample(xs, x);
    AddedExtremes(xs, x, x, x, x, x);
    MomentsExactly(x, m2, 1.0, xs + [x]);
  }

  lemma NextMoments(xs: seq<real>, x: real, mean: real, m2: real, n': real, mean': real, m2': real)
    requires xs != [] && Moments(mean, m2, |xs| as real, xs)
    requires n' == (|xs| + 1) as real && mean' == mean + (x - mean) / n'
    requires m2' == m2 + (x - mean) * (x - mean')
    ensures Moments(mean', m2', n', xs + [x])
  {
    MomentsExactly(mean, m2, |xs| as real, xs);
    AddedMean(xs, x, mean, mean', n');
    AddedDeviation(xs, x, mean, mean');
    MomentsExactly(mean', m2', n', xs + [x]);
  }

  lemma AddedExtremes(xs: seq<real>, x: real, min: real, max: real, min': real, max': real)
    requires Extremes(min, max, xs)
    requires min' == (if xs == [] || x < min then x else min) && max' == (if xs == [] || x > max then x else max)
    ensures Extremes(min', max', xs + [x])
  {
    assert (xs + [x])[..|xs|] == xs;
  }

  lemma TotalSnoc(xs: seq<real>, x: real, f: real -> real)
    ensures Total(xs + [x], f) == Total(xs, f) + f(x)
  {
    assert (xs + [x])[..|xs|] == xs;
  }

  lemma DeviationsSnoc(xs: seq<real>, x: real, m: real)
    ensures Deviations(xs + [x], m) == Deviations(xs, m) + (x - m) * (x - m)
  {
    TotalSnoc(xs, x, SquareFrom(m));
  }

  lemma SumSnoc(xs: seq<real>, x: real)
    ensures Sum(xs + [x]) == Sum(xs) + x
  {
    TotalSnoc(xs, x, Itself());
  }

  /** Sum of squared deviations, written out in the sums of squares and of samples. */
  function Expanded(q: real, s: real, n: real, m: real): real {
    q - 2.0 * m * s + m * m * n
  }

  lemma ExpandStep(x: real, q: real, s: real, n: real, m: real, q': real, s': real, n': real)
    requires q' == q + x * x && s' == s + x && n' == n + 1.0
    ensures Expanded(q, s, n, m) + (x - m) * (x - m) == Expanded(q', s', n', m)
  {
    assert (x - m) * (x - m) == x * x - 2.0 * m * x + m * m;
    assert m * m * (n + 1.0) == m * m * n + m * m;
    assert 2.0 * m * (s + x) == 2.0 * m * s + 2.0 * m * x;
  }

  lemma {:induction false} Expand(xs: seq<real>, m: real)
    ensures Deviations(xs, m) == Expanded(Deviations(xs, 0.0), Sum(xs), |xs| as real, m)
  {
    if xs != [] {
      var front, x := xs[..|xs| - 1], xs[|xs| - 1];
      Expand(front, m);
      ExpandLast(xs, m);
      ExpandStep(x, Deviations(front, 0.0), Sum(front), |front| as real, m,
                 Deviations(xs, 0.0), Sum(xs), |xs| as real);
    }
  }

  lemma ExpandLast(xs: seq<real>, m: real)
    requires xs != []
    ensures var front, x := xs[..|xs| - 1], xs[|xs| - 1];
            && Deviations(xs, m) == Deviations(front, m) + (x - m) * (x - m)
            && Deviations(xs, 0.0) == Deviations(front, 0.0) + x * x
            && Sum(xs) == Sum(front) + x
            && |xs| as real == |front| as real + 1.0
  {
  }

  /** Welford's step: the mean. */
  lemma AddedMean(xs: seq<real>, x: real, mean: real, mean': real, n': real)
    requires xs != [] && mean * (|xs| as real) == Sum(xs)
    requires n' == (|xs| + 1) as real && mean' == mean + (x - mean) / n'
    ensures mean' * n' == Sum(xs + [x])
    ensures (mean' - mean) * (|xs| as real) == x - mean'
  {
    SumSnoc(xs, x);
    MeanStep(mean, mean', |xs| as real, n', x);
  }

  /** Welford's step: the sum of squared deviations. */
  lemma AddedDeviation(xs: seq<real>, x: real, mean: real, mean': real)
    requires mean * (|xs| as real) == Sum(xs) && (mean' - mean) * (|xs| as real) == x - mean'
    ensures Deviations(xs + [x], mean') == Deviations(xs, mean) + (x - mean) * (x - mean')
  {
    DeviationsSnoc(xs, x, mean');
    MovedCentre(xs, x, mean, mean');
  }

  lemma MovedCentre(xs: seq<real>, x: real, mean: real, mean': real)
    requires mean * (|xs| as real) == Sum(xs) && (mean' - mean) * (|xs| as real) == x - mean'
    ensures Deviations(xs, mean') + (x - mean') * (x - mean') == Deviations(xs, mean) + (x - mean) * (x - mean')
  {
    Expand(xs, mean);
    Expand(xs, mean');
    WelfordIdentity(Deviations(xs, 0.0), Sum(xs), |xs| as real, x, mean, mean');
  }

  lemma MeanStep(mean: real, mean': real, n: real, n': real, x: real)
    requires n > 0.0 && n' == n + 1.0 && mean' == mean + (x - mean) / n'
    ensures mean' * n' == mean * n + x
    ensures (mean' - mean) * n == x - mean'
  {
    var step := (x - mean) / n';
    assert step * n' == x - mean;
  }

  lemma WelfordIdentity(q: real, s: real, n: real, x: real, mean: real, mean': real)
    requires mean * n == s && (mean' - mean) * n == x - mean'
    ensures Expanded(q, s, n, mean') + (x - mean') * (x - mean')
         == Expanded(q, s, n, mean) + (x - mean) * (x - mean')
  {
    var d := mean' - mean;
    assert s == mean * n;
    assert 2.0 * mean' * s == 2.0 * mean * s + 2.0 * d * s;
    assert mean' * mean' == mean * mean + 2.0 * d * mean + d * d;
    assert mean' * mean' * n == mean * mean * n + 2.0 * d * (mean * n) + d * (d * n);
    assert Expanded(q, s, n, mean') == Expanded(q, s, n, mean) + d * (x - mean');
    assert d * (x - mean') + (x - mean') * (x - mean') == (d + (x - mean')) * (x - mean');
  }

  // ----- bounds

  lemma {:induction false} SumBetween(xs: seq<real>, lo: real, hi: real)
    requires forall x | x in xs :: lo <= x <= hi
    ensures lo * (|xs| as real) <= Sum(xs) <= hi * (|xs| as real)
  {
    if xs != [] {
      var front, x := xs[..|xs| - 1], xs[|xs| - 1];
      assert x in xs && forall y | y in front :: y in xs;
      SumBetween(front, lo, hi);
      assert |xs| as real == |front| as real + 1.0;
    }
  }

  lemma {:induction false} TotalNonNegative(xs: seq<real>, f: real -> real)
    requires forall x | x in xs :: f(x) >= 0.0
    ensures Total(xs, f) >= 0.0
  {
    if xs != [] {
      var front, x := xs[..|xs| - 1], xs[|xs| - 1];
      assert x in xs && forall y | y in front :: y in xs;
      TotalNonNegative(front, f);
    }
  }

  lemma DeviationsNonNegative(xs: seq<real>, m: real)
    ensures Deviations(xs, m) >= 0.0
  {
    forall x | x in xs
      ensures SquareFrom(m)(x) >= 0.0
    {
      SquareNonNegative(x - m);
    }
    TotalNonNegative(xs, SquareFrom(m));
  }

  lemma SquareNonNegative(a: real)
    ensures a * a >= 0.0
  {
  }

  lemma ProductNonNegative(a: real, b: real)
    requires a >= 0.0 && b >= 0.0
    ensures a * b >= 0.0
  {
  }

  function Slack(lo: real, hi: real): real -> real {
    x => (hi - x) * (x - lo)
  }

  /** Every (hi - x)(x - lo) is non-negative, hence so is their sum. */
  lemma SlackNonNegative(xs: seq<real>, lo: real, hi: real)
    requires forall x | x in xs :: lo <= x <= hi
    ensures Total(xs, Slack(lo, hi)) >= 0.0
  {
    forall x | x in xs
      ensures Slack(lo, hi)(x) >= 0.0
    {
      ProductNonNegative(hi - x, x - lo);
    }
    TotalNonNegative(xs, Slack(lo, hi));
  }

  function SlackOf(q: real, s: real, n: real, lo: real, hi: real): real {
    (hi + lo) * s - q - hi * lo * n
  }

  lemma SlackStep(x: real, q: real, s: real, n: real, lo: real, hi: real, q': real, s': real, n': real)
    requires q' == q + x * x && s' == s + x && n' == n + 1.0
    ensures SlackOf(q', s', n', lo, hi) == SlackOf(q, s, n, lo, hi) + (hi - x) * (x - lo)
  {
    assert (hi - x) * (x - lo) == (hi + lo) * x - x * x - hi * lo;
    assert (hi + lo) * (s + x) == (hi + lo) * s + (hi + lo) * x;
  }

  lemma SlackLast(xs: seq<real>, lo: real, hi: real)
    requires xs != []
    ensures var front, x := xs[..|xs| - 1], xs[|xs| - 1];
            && Total(xs, Slack(lo, hi)) == Total(front, Slack(lo, hi)) + (hi - x) * (x - lo)
            && Deviations(xs, 0.0) == Deviations(front, 0.0) + x * x
            && Sum(xs) == Sum(front) + x
            && |xs| as real == |front| as real + 1.0
  {
  }

  lemma {:induction false} SlackExpanded(xs: seq<real>, lo: real, hi: real)
    ensures Total(xs, Slack(lo, hi)) == SlackOf(Deviations(xs, 0.0), Sum(xs), |xs| as real, lo, hi)
  {
    if xs != [] {
      var front, x := xs[..|xs| - 1], xs[|xs| - 1];
      SlackExpanded(front, lo, hi);
      SlackLast(xs, lo, hi);
      SlackStep(x, Deviations(front, 0.0), Sum(front), |front| as real, lo, hi,
                Deviations(xs, 0.0), Sum(xs), |xs| as real);
    }
  }

  /** The deviations and the slack make up n(hi - mean)(mean - lo) between them. */
  lemma SpreadSplit(xs: seq<real>, lo: real, hi: real, mean: real)
    requires mean * (|xs| as real) == Sum(xs)
    ensures Deviations(xs, mean) + Total(xs, Slack(lo, hi)) == (hi - mean) * (mean - lo) * (|xs| as real)
  {
    SlackExpanded(xs, lo, hi);
    Expand(xs, mean);
    SpreadIdentity(Deviations(xs, 0.0), Sum(xs), |xs| as real, lo, hi, mean);
  }

  lemma SpreadIdentity(q: real, s: real, n: real, lo: real, hi: real, mean: real)
    requires mean * n == s
    ensures Expanded(q, s, n, mean) + SlackOf(q, s, n, lo, hi) == (hi - mean) * (mean - lo) * n
  {
    assert mean * mean * n == mean * s;
    assert (hi - mean) * (mean - lo) == (hi + lo) * mean - mean * mean - hi * lo;
    assert (hi - mean) * (mean - lo) * n == (hi + lo) * (mean * n) - mean * mean * n - hi * lo * n;
  }

  lemma Divide(a: real, b: real, n: real)
    requires n > 0.0 && a * n <= b * n
    ensures a <= b
  {
    assert (b - a) * n >= 0.0;
  }

  lemma SummaryBounds(count: nat, min: real, max: real, mean: real, m2: real, xs: seq<real>)
    requires Summarises(count, min, max, mean, m2, xs) && count > 0
    ensures min <= mean <= max
    ensures 0.0 <= m2 / (count as real) <= (max - mean) * (mean - min)
  {
    MomentsExactly(mean, m2, count as real, xs);
    ExtremesAreExtreme(xs);
    MeanInside(min, max, mean, xs);
    DeviationsNonNegative(xs, mean);
    SlackNonNegative(xs, min, max);
    SpreadSplit(xs, min, max, mean);
    VarianceBound(m2, Total(xs, Slack(min, max)), count as real, (max - mean) * (mean - min));
  }

  /** The reported numbers are in order, the variance is a number a square root exists for, and
      it is no larger than the extremes allow. */
  lemma StatsBounds(s: Stats, xs: seq<real>)
    requires s.Of(xs) && xs != []
    ensures s.min <= s.mean <= s.max
    ensures 0.0 <= s.Variance() <= (s.max - s.mean) * (s.mean - s.min)
    ensures s.Variance() * |xs| as real == Deviations(xs, s.mean)
  {
    MomentsExactly(s.mean, s.m2, s.count as real, xs);
    SummaryBounds(s.count, s.min, s.max, s.mean, s.m2, xs);
  }

  lemma MeanInside(min: real, max: real, mean: real, xs: seq<real>)
    requires xs != [] && IsMin(xs, min) && IsMax(xs, max) && mean * (|xs| as real) == Sum(xs)
    ensures min <= mean <= max
  {
    SumBetween(xs, min, max);
    QuotientBetween(min, max, mean, |xs| as real, Sum(xs));
  }

  lemma QuotientBetween(lo: real, hi: real, q: real, n: real, s: real)
    requires n > 0.0 && lo * n <= s <= hi * n && q * n == s
    ensures lo <= q <= hi
  {
    Divide(lo, q, n);
    Divide(q, hi, n);
  }

  lemma VarianceBound(m2: real, slack: real, n: real, bound: real)
    requires n > 0.0 && m2 >= 0.0 && slack >= 0.0 && m2 + slack == bound * n
    ensures 0.0 <= m2 / n <= bound
  {
    assert (m2 / n) * n == m2;
    Divide(0.0, m2 / n, n);
    Divide(m2 / n, bound, n);
  }

  // ----- order of arrival does not matter

  lemma {:induction false} TotalRemove(xs: seq<real>, k: nat, f: real -> real)
    requires k < |xs|
    ensures Total(xs, f) == Total(xs[..k] + xs[k + 1..], f) + f(xs[k])
  {
    var last := |xs| - 1;
    if k == last {
      assert xs[..k] + xs[k + 1..] == xs[..last];
    } else {
      TotalRemove(xs[..last], k, f);
      assert (xs[..k] + xs[k + 1..])[..last - 1] == xs[..last][..k] + xs[..last][k + 1..];
    }
  }

  lemma RemoveOne(ys: seq<real>, k: nat)
    requires k < |ys|
    ensures multiset(ys[..k] + ys[k + 1..]) == multiset(ys) - multiset{ys[k]}
  {
    assert ys == ys[..k] + ([ys[k]] + ys[k + 1..]);
    assert multiset(ys) == multiset(ys[..k]) + (multiset{ys[k]} + multiset(ys[k + 1..]));
  }

  lemma InPermutation(xs: seq<real>, ys: seq<real>, a: real)
    requires multiset(xs) == multiset(ys) && a in xs
    ensures a in ys
  {
    assert a in multiset(xs);
  }

  lemma {:induction false} PermutationTotal(xs: seq<real>, ys: seq<real>, f: real -> real)
    requires multiset(xs) == multiset(ys)
    ensures |xs| == |ys| && Total(xs, f) == Total(ys, f)
    decreases |xs|
  {
    assert |xs| == |multiset(xs)| == |multiset(ys)| == |ys|;
    if xs != [] {
      var last := |xs| - 1;
      RemoveOne(xs, last);
      assert xs[..last] + xs[last + 1..] == xs[..last];
      InPermutation(xs, ys, xs[last]);
      var k :| 0 <= k < |ys| && ys[k] == xs[last];
      RemoveOne(ys, k);
      PermutationTotal(xs[..last], ys[..k] + ys[k + 1..], f);
      TotalRemove(ys, k, f);
    }
  }

  lemma SameExtremes(xs: seq<real>, ys: seq<real>, min: real, max: real, min': real, max': real)
    requires multiset(xs) == multiset(ys)
    requires IsMin(xs, min) && IsMax(xs, max) && IsMin(ys, min') && IsMax(ys, max')
    ensures min == min' && max == max'
  {
    InPermutation(xs, ys, min);
    InPermutation(xs, ys, max);
    InPermutation(ys, xs, min');
    InPermutation(ys, xs, max');
  }

  lemma SameMean(xs: seq<real>, ys: seq<real>, mean: real, mean': real)
    requires multiset(xs) == multiset(ys)
    requires mean * (|xs| as real) == Sum(xs) && mean' * (|ys| as real) == Sum(ys)
    requires xs == [] ==> mean == mean'
    ensures mean == mean'
  {
    PermutationTotal(xs, ys, Itself());
    if xs != [] {
      Divide(mean, mean', |xs| as real);
      Divide(mean', mean, |xs| as real);
    }
  }

  lemma SameMoments(xs: seq<real>, ys: seq<real>, mean: real, m2: real, mean': real, m2': real)
    requires multiset(xs) == multiset(ys)
    requires Moments(mean, m2, |xs| as real, xs) && Moments(mean', m2', |ys| as real, ys)
    ensures |xs| == |ys| && mean == mean' && m2 == m2'
  {
    MomentsExactly(mean, m2, |xs| as real, xs);
    MomentsExactly(mean', m2', |ys| as real, ys);
    PermutationTotal(xs, ys, SquareFrom(mean));
    SameMean(xs, ys, mean, mean');
  }

  /** Two runs over the same samples in any two orders end with the same five numbers. */
  lemma OrderIrrelevant(count: nat, min: real, max: real, mean: real, m2: real, xs: seq<real>,
                        count': nat, min': real, max': real, mean': real, m2': real, ys: seq<real>)
    requires Summarises(count, min, max, mean, m2, xs) && Summarises(count', min', max', mean', m2', ys)
    requires multiset(xs) == multiset(ys)
    ensures count == count' && mean == mean' && m2 == m2'
    ensures xs != [] ==> min == min' && max == max'
  {
    SameMoments(xs, ys, mean, m2, mean', m2');
    if xs != [] {
      ExtremesAreExtreme(xs);
      ExtremesAreExtreme(ys);
      SameExtremes(xs, ys, min, max, min', max');
    }
  }
}
