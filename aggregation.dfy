/**
 * The per-category aggregators of the scoring module (scaled median, simple mean, trimmed
 * mean) over judge scores in which some slots may be absent, and the per-couple score that
 * applies one of them to the five categories and sums the available ones.
 * Scores are exact reals; floating-point rounding is not modelled.
 */
module Aggregation {
  import opened Optional
  import opened Sorting
  import opened Numbers

  // ---------------------------------------------------------------------------------------
  // numeric lists

  /** The present scores, in order (`[s for s in scores if s is not None]`). */
  function Present(scores: seq<Option<real>>): (xs: seq<real>)
    ensures |xs| <= |scores|
  {
    if scores == [] then []
    else (if scores[0].Some? then [scores[0].value] else []) + Present(scores[1..])
  }

  /** Each value occurs among the present scores as often as it occurs as `Some` in the input. */
  lemma {:induction false} PresentCount(scores: seq<Option<real>>, x: real)
    ensures multiset(Present(scores))[x] == multiset(scores)[Some(x)]
    decreases |scores|
  {
    if scores != [] {
      var head := if scores[0].Some? then [scores[0].value] else [];
      assert scores == [scores[0]] + scores[1..];
      assert multiset(scores) == multiset{scores[0]} + multiset(scores[1..]);
      assert multiset(Present(scores)) == multiset(head) + multiset(Present(scores[1..]));
      PresentCount(scores[1..], x);
    }
  }

  lemma PresentPermutation(s: seq<Option<real>>, t: seq<Option<real>>)
    requires multiset(s) == multiset(t)
    ensures multiset(Present(s)) == multiset(Present(t))
  {
    forall x ensures multiset(Present(s))[x] == multiset(Present(t))[x] {
      PresentCount(s, x);
      PresentCount(t, x);
    }
  }

  lemma PresentEmpty(scores: seq<Option<real>>)
    ensures Present(scores) == [] <==> forall k :: 0 <= k < |scores| ==> scores[k].None?
  {
    if exists k :: 0 <= k < |scores| && scores[k].Some? {
      var k :| 0 <= k < |scores| && scores[k].Some?;
      PresentCount(scores, scores[k].value);
      assert scores[k] in multiset(scores);
    }
  }

  /** Python's `sum` over reals. */
  function Sum(xs: seq<real>): real {
    if xs == [] then 0.0 else xs[0] + Sum(xs[1..])
  }

  function Map(xs: seq<real>, f: real -> real): (ys: seq<real>)
    ensures |ys| == |xs| && forall k :: 0 <= k < |xs| ==> ys[k] == f(xs[k])
  {
    seq(|xs|, k requires 0 <= k < |xs| => f(xs[k]))
  }

  function Min(xs: seq<real>): (r: real)
    requires xs != []
    ensures r in xs && forall k :: 0 <= k < |xs| ==> r <= xs[k]
  {
    if |xs| == 1 then xs[0]
    else
      var m := Min(xs[1..]);
      assert forall k :: 1 <= k < |xs| ==> xs[k] == xs[1..][k - 1];
      if xs[0] <= m then xs[0] else m
  }

  function Max(xs: seq<real>): (r: real)
    requires xs != []
    ensures r in xs && forall k :: 0 <= k < |xs| ==> xs[k] <= r
  {
    if |xs| == 1 then xs[0]
    else
      var m := Max(xs[1..]);
      assert forall k :: 1 <= k < |xs| ==> xs[k] == xs[1..][k - 1];
      if xs[0] >= m then xs[0] else m
  }

  predicate RealLess(a: real, b: real) {
    a < b
  }

  lemma RealLessIsTotal()
    ensures StrictWeakOrder(RealLess) && Connected(RealLess)
  {
  }

  /** `sorted(xs)`. */
  function SortReals(xs: seq<real>): (s: seq<real>)
    ensures multiset(s) == multiset(xs) && |s| == |xs|
  {
    Sort(xs, RealLess)
  }

  lemma SortRealsSorted(xs: seq<real>)
    ensures forall i, j :: 0 <= i < j < |SortReals(xs)| ==> SortReals(xs)[i] <= SortReals(xs)[j]
  {
    RealLessIsTotal();
    SortSorted(xs, RealLess);
  }

  lemma SortRealsPermutation(xs: seq<real>, ys: seq<real>)
    requires multiset(xs) == multiset(ys)
    ensures SortReals(xs) == SortReals(ys)
  {
    RealLessIsTotal();
    SortPermutationInvariant(xs, ys, RealLess);
  }

  lemma {:induction false} SumInsert(x: real, s: seq<real>, f: real -> real)
    ensures Sum(Map(Insert(x, s, RealLess), f)) == f(x) + Sum(Map(s, f))
    decreases |s|
  {
    var r := Insert(x, s, RealLess);
    if s != [] && RealLess(s[0], x) {
      SumInsert(x, s[1..], f);
      assert Map(r, f)[1..] == Map(Insert(x, s[1..], RealLess), f);
      assert Map(s, f)[1..] == Map(s[1..], f);
    } else {
      assert Map(r, f)[1..] == Map(s, f);
    }
  }

  lemma {:induction false} SumSort(xs: seq<real>, f: real -> real)
    ensures Sum(Map(SortReals(xs), f)) == Sum(Map(xs, f))
    decreases |xs|
  {
    if xs != [] {
      SumSort(xs[1..], f);
      SumInsert(xs[0], Sort(xs[1..], RealLess), f);
      assert Map(xs, f)[1..] == Map(xs[1..], f);
    }
  }

  /** Sums of `f` over two permutations of one list agree. */
  lemma SumPermutation(xs: seq<real>, ys: seq<real>, f: real -> real)
    requires multiset(xs) == multiset(ys)
    ensures Sum(Map(xs, f)) == Sum(Map(ys, f))
  {
    SumSort(xs, f);
    SumSort(ys, f);
    SortRealsPermutation(xs, ys);
  }

  lemma SumMapHead(xs: seq<real>, f: real -> real)
    requires xs != []
    ensures Sum(Map(xs, f)) == f(xs[0]) + Sum(Map(xs[1..], f))
  {
    assert Map(xs, f)[1..] == Map(xs[1..], f);
  }

  function Identity(): real -> real {
    x => x
  }

  lemma {:induction false} MapIdentity(xs: seq<real>)
    ensures Map(xs, Identity()) == xs
  {
  }

  /** Every element of `xs` lies in the closed interval [lo, hi]. */
  predicate Within(xs: seq<real>, lo: real, hi: real) {
    forall k :: 0 <= k < |xs| ==> lo <= xs[k] <= hi
  }

  /** The least and the greatest element bound the whole list. */
  lemma WithinMinMax(xs: seq<real>)
    requires xs != []
    ensures Within(xs, Min(xs), Max(xs))
  {
  }

  /** A sum lies between the length times the least and the length times the greatest term. */
  lemma {:induction false} SumBetween(xs: seq<real>, lo: real, hi: real)
    requires forall k :: 0 <= k < |xs| ==> lo <= xs[k] <= hi
    ensures Bracketed(Sum(xs), |xs| as real, lo, hi)
    decreases |xs|
  {
    if xs != [] {
      SumBetween(xs[1..], lo, hi);
      Distribute(lo, |xs[1..]| as real, 1.0);
      Distribute(hi, |xs[1..]| as real, 1.0);
    }
  }

  // ---------------------------------------------------------------------------------------
  // real arithmetic steps

  lemma ReciprocalBounds(a: real)
    requires a >= 1.0
    ensures 0.0 < 1.0 / a <= 1.0
  {
    assert (1.0 / a) * a == 1.0;
  }

  lemma ProductNonNegative(x: real, y: real)
    requires x >= 0.0 && y >= 0.0
    ensures x * y >= 0.0
  {
  }

  lemma SquareNonNegative(d: real)
    ensures d * d >= 0.0
  {
    if d >= 0.0 {
      ProductNonNegative(d, d);
    } else {
      ProductNonNegative(-d, -d);
      assert (-d) * (-d) == d * d;
    }
  }

  lemma Distribute(c: real, a: real, b: real)
    ensures c * (a + b) == c * a + c * b
  {
  }

  lemma ProductNonPositive(x: real, y: real)
    requires x <= 0.0 && y >= 0.0
    ensures x * y <= 0.0
  {
    ProductNonNegative(-x, y);
    assert (-x) * y == -(x * y);
  }

  lemma ShiftStep(x: real, w: real, c: real, tv: real, tw: real, st: real)
    requires st == tv - c * tw
    ensures (x - c) * w + st == (x * w + tv) - c * (w + tw)
  {
  }


  /** `tv` lies between `lo` and `hi` times `tw`. */
  predicate Bracketed(tv: real, tw: real, lo: real, hi: real) {
    lo * tw <= tv <= hi * tw
  }

  lemma QuotientBetween(tv: real, tw: real, lo: real, hi: real)
    requires tw > 0.0 && Bracketed(tv, tw, lo, hi)
    ensures lo <= tv / tw <= hi
  {
    var q := tv / tw;
    assert q * tw == tv;
  }

  // ---------------------------------------------------------------------------------------
  // statistics.median

  /** `statistics.median`: the middle of the sorted list, or the mean of the two middles. */
  function Median(xs: seq<real>): real
    requires xs != []
  {
    var s := SortReals(xs);
    var n := |s|;
    if n % 2 == 1 then s[n / 2] else (s[n / 2 - 1] + s[n / 2]) / 2.0
  }

  lemma MedianBetween(xs: seq<real>)
    requires xs != []
    ensures Min(xs) <= Median(xs) <= Max(xs)
  {
    var s := SortReals(xs);
    forall k | 0 <= k < |s| ensures Min(xs) <= s[k] <= Max(xs) {
      assert s[k] in multiset(xs);
      var j :| 0 <= j < |xs| && xs[j] == s[k];
    }
  }

  // ---------------------------------------------------------------------------------------
  // _scaled_median_from_scores

  /** The closeness weight 1 / (1 + (v - m)^2) of a score `v` around the median `m`. */
  function Weight(v: real, m: real): (w: real)
    ensures 0.0 < w <= 1.0
    ensures v == m ==> w == 1.0
  {
    SquareNonNegative(v - m);
    ReciprocalBounds(1.0 + (v - m) * (v - m));
    1.0 / (1.0 + (v - m) * (v - m))
  }

  /** The closeness weight of every score around `m`, slot by slot. */
  function Weights(xs: seq<real>, m: real): (ws: seq<real>)
    ensures |ws| == |xs| && forall k :: 0 <= k < |xs| ==> ws[k] == Weight(xs[k], m)
  {
    seq(|xs|, k requires 0 <= k < |xs| => Weight(xs[k], m))
  }

  /** A non-empty list of scores has a positive total weight. */
  lemma {:induction false} WeightsPositive(xs: seq<real>, m: real)
    requires xs != []
    ensures Sum(Weights(xs, m)) > 0.0
    decreases |xs|
  {
    assert Weights(xs, m)[1..] == Weights(xs[1..], m);
    if |xs| > 1 {
      WeightsPositive(xs[1..], m);
    }
  }

  /** The products of scores and their weights, slot by slot. */
  function Products(xs: seq<real>, ws: seq<real>): (ps: seq<real>)
    requires |xs| == |ws|
    ensures |ps| == |xs| && forall k :: 0 <= k < |xs| ==> ps[k] == xs[k] * ws[k]
  {
    seq(|xs|, k requires 0 <= k < |xs| => xs[k] * ws[k])
  }

  function Shift(xs: seq<real>, c: real): (ys: seq<real>)
    ensures |ys| == |xs| && forall k :: 0 <= k < |xs| ==> ys[k] == xs[k] - c
  {
    seq(|xs|, k requires 0 <= k < |xs| => xs[k] - c)
  }

  lemma SumProductsHead(xs: seq<real>, ws: seq<real>)
    requires |xs| == |ws| && xs != []
    ensures Sum(Products(xs, ws)) == xs[0] * ws[0] + Sum(Products(xs[1..], ws[1..]))
  {
    var ps, qs := Products(xs, ws), Products(xs[1..], ws[1..]);
    forall k | 0 <= k < |qs| ensures ps[1..][k] == qs[k] {
      assert xs[1..][k] == xs[k + 1] && ws[1..][k] == ws[k + 1];
    }
    assert ps[1..] == qs;
  }

  /** Shifting every score by `c` shifts the weighted sum by `c` times the total weight. */
  lemma {:induction false} SumProductsShift(xs: seq<real>, ws: seq<real>, c: real)
    requires |xs| == |ws|
    ensures Sum(Products(Shift(xs, c), ws)) == Sum(Products(xs, ws)) - c * Sum(ws)
    decreases |xs|
  {
    if xs != [] {
      assert Shift(xs, c)[1..] == Shift(xs[1..], c);
      SumProductsHead(xs, ws);
      SumProductsHead(Shift(xs, c), ws);
      SumProductsShift(xs[1..], ws[1..], c);
      ShiftStep(xs[0], ws[0], c, Sum(Products(xs[1..], ws[1..])), Sum(ws[1..]),
        Sum(Products(Shift(xs[1..], c), ws[1..])));
    }
  }

  lemma {:induction false} SumProductsNonNegative(xs: seq<real>, ws: seq<real>)
    requires |xs| == |ws|
    requires forall k :: 0 <= k < |xs| ==> xs[k] >= 0.0 && ws[k] >= 0.0
    ensures Sum(Products(xs, ws)) >= 0.0
    decreases |xs|
  {
    if xs != [] {
      SumProductsHead(xs, ws);
      SumProductsNonNegative(xs[1..], ws[1..]);
      ProductNonNegative(xs[0], ws[0]);
    }
  }

  lemma {:induction false} SumProductsNonPositive(xs: seq<real>, ws: seq<real>)
    requires |xs| == |ws|
    requires forall k :: 0 <= k < |xs| ==> xs[k] <= 0.0 && ws[k] >= 0.0
    ensures Sum(Products(xs, ws)) <= 0.0
    decreases |xs|
  {
    if xs != [] {
      SumProductsHead(xs, ws);
      SumProductsNonPositive(xs[1..], ws[1..]);
      ProductNonPositive(xs[0], ws[0]);
    }
  }

  /** With non-negative weights, the weighted sum lies between lo and hi times the total weight. */
  lemma WeightedBetween(xs: seq<real>, ws: seq<real>, lo: real, hi: real)
    requires |xs| == |ws| && Within(xs, lo, hi) && Within(ws, 0.0, 1.0)
    ensures Bracketed(Sum(Products(xs, ws)), Sum(ws), lo, hi)
  {
    SumProductsShift(xs, ws, lo);
    SumProductsShift(xs, ws, hi);
    SumProductsNonNegative(Shift(xs, lo), ws);
    SumProductsNonPositive(Shift(xs, hi), ws);
  }

  /** A weighted mean with non-negative weights of positive total lies within the scores' bounds. */
  lemma WeightedMeanBetween(xs: seq<real>, ws: seq<real>, lo: real, hi: real)
    requires |xs| == |ws| && Within(xs, lo, hi) && Within(ws, 0.0, 1.0) && Sum(ws) > 0.0
    ensures lo <= Sum(Products(xs, ws)) / Sum(ws) <= hi
  {
    WeightedBetween(xs, ws, lo, hi);
    QuotientBetween(Sum(Products(xs, ws)), Sum(ws), lo, hi);
  }

  lemma WeightsWithin(xs: seq<real>, m: real)
    ensures Within(Weights(xs, m), 0.0, 1.0)
  {
  }

  /**
   * `_scaled_median_from_scores` as a value: the weighted mean of the present scores with
   * closeness weights around their median; `None` when no score is present.
   */
  function ScaledMedian(scores: seq<Option<real>>): (r: Option<real>)
    ensures r.None? <==> Present(scores) == []
  {
    var xs := Present(scores);
    if xs == [] then None
    else
      var ws := Weights(xs, Median(xs));
      WeightsPositive(xs, Median(xs));
      Some(Sum(Products(xs, ws)) / Sum(ws))
  }

  /** Whatever the centre `m`, the closeness-weighted mean of scores in [lo, hi] lies in [lo, hi]. */
  lemma WeightedMeanWithin(xs: seq<real>, m: real, lo: real, hi: real)
    requires xs != [] && Within(xs, lo, hi)
    ensures Sum(Weights(xs, m)) > 0.0
    ensures lo <= Sum(Products(xs, Weights(xs, m))) / Sum(Weights(xs, m)) <= hi
  {
    WeightsPositive(xs, m);
    WeightsWithin(xs, m);
    WeightedMeanBetween(xs, Weights(xs, m), lo, hi);
  }

  /** Any bounds on the present scores bound the scaled median. */
  lemma ScaledMedianWithin(scores: seq<Option<real>>, lo: real, hi: real)
    requires Present(scores) != [] && Within(Present(scores), lo, hi)
    ensures lo <= ScaledMedian(scores).value <= hi
  {
    var xs := Present(scores);
    WeightedMeanWithin(xs, Median(xs), lo, hi);
  }

  /** The scaled median never leaves the range of the scores. */
  lemma ScaledMedianBetween(scores: seq<Option<real>>)
    requires Present(scores) != []
    ensures Min(Present(scores)) <= ScaledMedian(scores).value <= Max(Present(scores))
  {
    WithinMinMax(Present(scores));
    ScaledMedianWithin(scores, Min(Present(scores)), Max(Present(scores)));
  }

  /** Each present score is the value of some `Some` slot of the input. */
  lemma PresentFrom(scores: seq<Option<real>>, k: nat)
    requires k < |Present(scores)|
    ensures Some(Present(scores)[k]) in scores
  {
    PresentCount(scores, Present(scores)[k]);
    assert Present(scores)[k] in multiset(Present(scores));
  }

  /** Judges who all agree give that very score. */
  lemma ScaledMedianConstant(scores: seq<Option<real>>, c: real)
    requires Present(scores) != []
    requires forall k :: 0 <= k < |scores| ==> scores[k].None? || scores[k] == Some(c)
    ensures ScaledMedian(scores) == Some(c)
  {
    var xs := Present(scores);
    forall k | 0 <= k < |xs| ensures c <= xs[k] <= c {
      PresentFrom(scores, k);
    }
    ScaledMedianWithin(scores, c, c);
  }

  function WeightAt(m: real): real -> real {
    v => Weight(v, m)
  }

  function WeightedAt(m: real): real -> real {
    v => v * Weight(v, m)
  }

  lemma WeightsAsMap(xs: seq<real>, m: real)
    ensures Weights(xs, m) == Map(xs, WeightAt(m))
    ensures Products(xs, Weights(xs, m)) == Map(xs, WeightedAt(m))
  {
    var ws, ps := Weights(xs, m), Products(xs, Weights(xs, m));
    forall k | 0 <= k < |xs| ensures ws[k] == Map(xs, WeightAt(m))[k] && ps[k] == Map(xs, WeightedAt(m))[k] {
      assert WeightAt(m)(xs[k]) == Weight(xs[k], m);
      assert WeightedAt(m)(xs[k]) == xs[k] * Weight(xs[k], m);
    }
  }

  lemma ScaledMedianPermutation(s: seq<Option<real>>, t: seq<Option<real>>)
    requires multiset(s) == multiset(t)
    ensures ScaledMedian(s) == ScaledMedian(t)
  {
    PresentPermutation(s, t);
    var xs, ys := Present(s), Present(t);
    if xs != [] {
      assert ys != [] by {
        assert |multiset(xs)| == |multiset(ys)|;
      }
      SortRealsPermutation(xs, ys);
      var m := Median(xs);
      assert Median(ys) == m;
      WeightsAsMap(xs, m);
      WeightsAsMap(ys, m);
      SumPermutation(xs, ys, WeightAt(m));
      SumPermutation(xs, ys, WeightedAt(m));
    } else {
      assert |multiset(ys)| == 0;
    }
  }

  lemma WeightsSnoc(xs: seq<real>, x: real, m: real)
    ensures Weights(xs + [x], m) == Weights(xs, m) + [Weight(x, m)]
  {
    assert forall k :: 0 <= k < |xs| ==> (xs + [x])[k] == xs[k];
  }

  lemma ProductsSnoc(xs: seq<real>, ws: seq<real>, x: real, w: real)
    requires |xs| == |ws|
    ensures Products(xs + [x], ws + [w]) == Products(xs, ws) + [x * w]
  {
    var ps, qs := Products(xs + [x], ws + [w]), Products(xs, ws) + [x * w];
    forall k | 0 <= k < |ps| ensures ps[k] == qs[k] {
      if k < |xs| {
        assert (xs + [x])[k] == xs[k] && (ws + [w])[k] == ws[k];
      }
    }
  }

  lemma WeightOfDistance(value: real, med: real, diff: real)
    requires diff == if value >= med then value - med else med - value
    ensures 1.0 / (1.0 + diff * diff) == Weight(value, med)
  {
    if value < med {
      assert diff * diff == (value - med) * (value - med);
    }
  }

  /** One step of the loop: `diff = abs(value - med)`, `weight = 1.0 / (1.0 + diff ** 2)`. */
  method ClosenessWeight(value: real, med: real) returns (weight: real)
    ensures weight == Weight(value, med)
  {
    var diff := if value >= med then value - med else med - value;
    weight := 1.0 / (1.0 + diff * diff);
    WeightOfDistance(value, med, diff);
  }

  /**
   * `_scaled_median_from_scores` as written: filter, take the median, accumulate the weight
   * and the weighted value of every score in two lists, and divide their sums.
   */
  method ScaledMedianFromScores(scores: seq<Option<real>>) returns (r: Option<real>)
    ensures r == ScaledMedian(scores)
  {
    var numeric := Present(scores);
    if numeric == [] {
      return None;
    }
    var med := Median(numeric);
    var weights: seq<real> := [];
    var weightedValues: seq<real> := [];
    var i := 0;
    while i < |numeric|
      invariant 0 <= i <= |numeric|
      invariant weights == Weights(numeric[..i], med)
      invariant weightedValues == Products(numeric[..i], weights)
    {
      var value := numeric[i];
      var weight := ClosenessWeight(value, med);
      TakeSnoc(numeric, i);
      WeightsSnoc(numeric[..i], value, med);
      ProductsSnoc(numeric[..i], weights, value, weight);
      weights := weights + [weight];
      weightedValues := weightedValues + [value * weight];
      i := i + 1;
    }
    assert numeric[..i] == numeric;
    var totalWeight := Sum(weights);
    WeightsPositive(numeric, med);
    if totalWeight == 0.0 {
      // the weights all lie in (0, 1], so the total is never 0
      assert false;
    }
    r := Some(Sum(weightedValues) / totalWeight);
  }

  // ---------------------------------------------------------------------------------------
  // _simple_average and _trimmed_average

  /** `_simple_average` of a list without absent entries. */
  function Mean(xs: seq<real>): (r: Option<real>)
    ensures r.None? <==> xs == []
  {
    if xs == [] then None else Some(Sum(xs) / |xs| as real)
  }

  /** Any bounds on the elements bound their mean. */
  lemma MeanWithin(xs: seq<real>, lo: real, hi: real)
    requires xs != [] && Within(xs, lo, hi)
    ensures lo <= Mean(xs).value <= hi
  {
    SumBetween(xs, lo, hi);
    QuotientBetween(Sum(xs), |xs| as real, lo, hi);
  }

  lemma MeanBetween(xs: seq<real>)
    requires xs != []
    ensures Min(xs) <= Mean(xs).value <= Max(xs)
  {
    WithinMinMax(xs);
    MeanWithin(xs, Min(xs), Max(xs));
  }

  lemma MeanPermutation(xs: seq<real>, ys: seq<real>)
    requires multiset(xs) == multiset(ys)
    ensures Mean(xs) == Mean(ys)
  {
    SumPermutation(xs, ys, Identity());
    MapIdentity(xs);
    MapIdentity(ys);
    assert |xs| == |multiset(xs)| == |multiset(ys)| == |ys|;
  }

  function SimpleAverage(scores: seq<Option<real>>): (r: Option<real>)
    ensures r.None? <==> Present(scores) == []
  {
    Mean(Present(scores))
  }

  lemma SimpleAverageWithin(scores: seq<Option<real>>, lo: real, hi: real)
    requires Present(scores) != [] && Within(Present(scores), lo, hi)
    ensures lo <= SimpleAverage(scores).value <= hi
  {
    MeanWithin(Present(scores), lo, hi);
  }

  lemma SimpleAveragePermutation(s: seq<Option<real>>, t: seq<Option<real>>)
    requires multiset(s) == multiset(t)
    ensures SimpleAverage(s) == SimpleAverage(t)
  {
    PresentPermutation(s, t);
    MeanPermutation(Present(s), Present(t));
  }

  /**
   * `_trimmed_average` after its filter: sort the scores; with at most two fall back to their
   * mean, otherwise average all but the first and the last.
   */
  function TrimmedMean(xs: seq<real>): (r: Option<real>)
    ensures r.None? <==> xs == []
  {
    var sorted := SortReals(xs);
    if |sorted| <= 2 then Mean(sorted)
    else
      var trimmed := sorted[1..|sorted| - 1];
      if trimmed == [] then Mean(sorted) else Mean(trimmed)
  }

  /** `_trimmed_average`: the trimmed mean of the present scores. */
  function TrimmedAverage(scores: seq<Option<real>>): (r: Option<real>)
    ensures r.None? <==> Present(scores) == []
  {
    TrimmedMean(Present(scores))
  }

  /** With two scores or fewer nothing is trimmed: the trimmed mean is the plain mean. */
  lemma TrimmedSmall(xs: seq<real>)
    requires |xs| <= 2
    ensures TrimmedMean(xs) == Mean(xs)
  {
    MeanPermutation(SortReals(xs), xs);
  }

  lemma TrimmedPair()
    ensures TrimmedAverage([Some(4.0), Some(8.0)]) == Some(6.0)
  {
    assert Present([Some(4.0), Some(8.0)]) == [4.0, 8.0];
    TrimmedSmall([4.0, 8.0]);
  }

  /** The first element of the sorted list is the least score. */
  lemma SortedFirstIsMin(xs: seq<real>)
    requires xs != []
    ensures SortReals(xs)[0] == Min(xs)
  {
    var s := SortReals(xs);
    SortRealsSorted(xs);
    assert s[0] in multiset(xs);
    assert Min(xs) in multiset(s);
  }

  /** The last element of the sorted list is the greatest score. */
  lemma SortedLastIsMax(xs: seq<real>)
    requires xs != []
    ensures SortReals(xs)[|xs| - 1] == Max(xs)
  {
    var s := SortReals(xs);
    SortRealsSorted(xs);
    assert s[|s| - 1] in multiset(xs);
    assert Max(xs) in multiset(s);
  }

  /** A list of three or more is its first element, its middle and its last element. */
  lemma MiddleSplit(s: seq<real>)
    requires |s| >= 3
    ensures multiset(s[1..|s| - 1]) + multiset{s[0], s[|s| - 1]} == multiset(s)
  {
    assert s == [s[0]] + s[1..|s| - 1] + [s[|s| - 1]];
  }

  /**
   * With three scores or more exactly one lowest and one highest score are dropped and the
   * rest averaged.
   */
  lemma TrimmedDropsExtremes(xs: seq<real>)
    requires |xs| >= 3
    ensures multiset(SortReals(xs)[1..|xs| - 1]) + multiset{Min(xs), Max(xs)} == multiset(xs)
    ensures TrimmedMean(xs) == Mean(SortReals(xs)[1..|xs| - 1])
  {
    ExtremesSplit(xs);
    TrimmedMiddle(xs);
  }

  lemma TrimmedMiddle(xs: seq<real>)
    requires |xs| >= 3
    ensures TrimmedMean(xs) == Mean(SortReals(xs)[1..|xs| - 1])
  {
  }

  lemma ExtremesSplit(xs: seq<real>)
    requires |xs| >= 3
    ensures multiset(SortReals(xs)[1..|xs| - 1]) + multiset{Min(xs), Max(xs)} == multiset(xs)
  {
    SortedFirstIsMin(xs);
    SortedLastIsMax(xs);
    PermutationSplit(xs, SortReals(xs), Min(xs), Max(xs));
  }

  lemma PermutationSplit(xs: seq<real>, s: seq<real>, lo: real, hi: real)
    requires |s| == |xs| >= 3 && multiset(s) == multiset(xs)
    requires s[0] == lo && s[|xs| - 1] == hi
    ensures multiset(s[1..|xs| - 1]) + multiset{lo, hi} == multiset(xs)
  {
    MiddleSplit(s);
  }

  /** Every element of a slice of a permutation of `xs` keeps the bounds of `xs`. */
  lemma WithinSortedSlice(xs: seq<real>, i: nat, j: nat, lo: real, hi: real)
    requires i <= j <= |xs| && Within(xs, lo, hi)
    ensures Within(SortReals(xs)[i..j], lo, hi)
  {
    var s := SortReals(xs);
    forall k | 0 <= k < j - i ensures lo <= s[i..j][k] <= hi {
      assert s[i + k] in multiset(xs);
    }
  }

  /** Any bounds on the scores bound their trimmed mean. */
  lemma TrimmedWithin(xs: seq<real>, lo: real, hi: real)
    requires xs != [] && Within(xs, lo, hi)
    ensures lo <= TrimmedMean(xs).value <= hi
  {
    var n := |xs|;
    if n <= 2 {
      WithinSortedSlice(xs, 0, n, lo, hi);
      assert SortReals(xs)[0..n] == SortReals(xs);
      MeanWithin(SortReals(xs), lo, hi);
    } else {
      WithinSortedSlice(xs, 1, n - 1, lo, hi);
      MeanWithin(SortReals(xs)[1..n - 1], lo, hi);
    }
  }

  lemma TrimmedPermutation(s: seq<Option<real>>, t: seq<Option<real>>)
    requires multiset(s) == multiset(t)
    ensures TrimmedAverage(s) == TrimmedAverage(t)
  {
    PresentPermutation(s, t);
    SortRealsPermutation(Present(s), Present(t));
  }

  // ---------------------------------------------------------------------------------------
  // scaled_median, simple_average_score, trimmed_average_score

  datatype Policy = ScaledMedianPolicy | SimpleAveragePolicy | TrimmedAveragePolicy

  function Aggregate(p: Policy, scores: seq<Option<real>>): (r: Option<real>)
    ensures r.None? <==> Present(scores) == []
  {
    match p
    case ScaledMedianPolicy => ScaledMedian(scores)
    case SimpleAveragePolicy => SimpleAverage(scores)
    case TrimmedAveragePolicy => TrimmedAverage(scores)
  }

  /** Every aggregator keeps any bounds that hold for all the scores it was given. */
  lemma AggregateWithin(p: Policy, scores: seq<Option<real>>, lo: real, hi: real)
    requires Present(scores) != [] && Within(Present(scores), lo, hi)
    ensures lo <= Aggregate(p, scores).value <= hi
  {
    match p
    case ScaledMedianPolicy => ScaledMedianWithin(scores, lo, hi);
    case SimpleAveragePolicy => SimpleAverageWithin(scores, lo, hi);
    case TrimmedAveragePolicy => TrimmedWithin(Present(scores), lo, hi);
  }

  /** Every aggregator stays within the range of the scores it was given. */
  lemma AggregateBetween(p: Policy, scores: seq<Option<real>>)
    requires Present(scores) != []
    ensures Min(Present(scores)) <= Aggregate(p, scores).value <= Max(Present(scores))
  {
    WithinMinMax(Present(scores));
    AggregateWithin(p, scores, Min(Present(scores)), Max(Present(scores)));
  }

  /** No aggregator depends on the order in which the judges' scores are listed. */
  lemma AggregatePermutation(p: Policy, s: seq<Option<real>>, t: seq<Option<real>>)
    requires multiset(s) == multiset(t)
    ensures Aggregate(p, s) == Aggregate(p, t)
  {
    match p
    case ScaledMedianPolicy => ScaledMedianPermutation(s, t);
    case SimpleAveragePolicy => SimpleAveragePermutation(s, t);
    case TrimmedAveragePolicy => TrimmedPermutation(s, t);
  }

  /** `CATEGORY_CODES`: the five judged categories, in this order. */
  const CategoryCodes: seq<string> := ["BBW", "BBM", "LF", "DF", "MI"]

  /** The parsed judge scores of one category; a missing category has none. */
  function ParsedScores(categories: map<string, seq<ScoreValue>>, code: string): (r: seq<Option<real>>)
    ensures code !in categories ==> r == []
    ensures code in categories ==> |r| == |categories[code]|
  {
    var raw := if code in categories then categories[code] else [];
    seq(|raw|, k requires 0 <= k < |raw| => ParseScore(raw[k]))
  }

  /** The per-category results in `CATEGORY_CODES` order. */
  function CategoryValues(perCategory: map<string, Option<real>>): seq<Option<real>>
    requires forall c :: c in CategoryCodes ==> c in perCategory
  {
    seq(|CategoryCodes|, k requires 0 <= k < |CategoryCodes| => perCategory[CategoryCodes[k]])
  }

  /** No category value is available exactly when every category came out `None`. */
  lemma AvailableEmpty(perCategory: map<string, Option<real>>)
    requires forall c :: c in CategoryCodes ==> c in perCategory
    ensures Present(CategoryValues(perCategory)) == [] <==> forall c :: c in CategoryCodes ==> perCategory[c].None?
  {
    var values := CategoryValues(perCategory);
    PresentEmpty(values);
    forall c | c in CategoryCodes ensures exists k :: 0 <= k < |values| && values[k] == perCategory[c] {
      var k :| 0 <= k < |CategoryCodes| && CategoryCodes[k] == c;
      assert values[k] == perCategory[c];
    }
  }

  /**
   * `scaled_median`, `simple_average_score` and `trimmed_average_score`: aggregate each of
   * the five categories by the policy, then sum the categories that produced a value.
   */
  method ScoreCouple(p: Policy, categories: map<string, seq<ScoreValue>>)
    returns (perCategory: map<string, Option<real>>, total: Option<real>)
    ensures perCategory.Keys == set c | c in CategoryCodes
    ensures forall c :: c in CategoryCodes ==> perCategory[c] == Aggregate(p, ParsedScores(categories, c))
    ensures forall c :: c in CategoryCodes && c !in categories ==> perCategory[c].None?
    ensures total.None? <==> forall c :: c in CategoryCodes ==> perCategory[c].None?
    ensures total.Some? ==> total.value == Sum(Present(CategoryValues(perCategory)))
  {
    perCategory := map[];
    var i := 0;
    while i < |CategoryCodes|
      invariant 0 <= i <= |CategoryCodes|
      invariant perCategory.Keys == set c | c in CategoryCodes[..i]
      invariant forall c :: c in CategoryCodes[..i] ==> perCategory[c] == Aggregate(p, ParsedScores(categories, c))
    {
      var code := CategoryCodes[i];
      var numericScores := ParsedScores(categories, code);
      var value;
      if p == ScaledMedianPolicy {
        value := ScaledMedianFromScores(numericScores);
      } else {
        value := Aggregate(p, numericScores);
      }
      perCategory := perCategory[code := value];
      assert CategoryCodes[..i + 1] == CategoryCodes[..i] + [code];
      i := i + 1;
    }
    assert CategoryCodes[..i] == CategoryCodes;
    var available := Present(CategoryValues(perCategory));
    AvailableEmpty(perCategory);
    total := if available != [] then Some(Sum(available)) else None;
  }
}
