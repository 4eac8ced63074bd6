/** Nearest-rank percentiles and the inclusive p95 budget. Percentile fractions are exact
    rationals here. */
module DurationBudget {
  import opened Ordering

  predicate RealLeq(a: real, b: real) { a <= b }

  lemma RealOrder()
    ensures TotalOrder(RealLeq)
  {
  }

  /** A percentile fraction numerator / denominator in (0, 1]. */
  datatype Fraction = Fraction(numerator: nat, denominator: nat)

  predicate ValidFraction(p: Fraction) {
    0 < p.numerator <= p.denominator
  }

  /** math.ceil(n * p) */
  function CeilingRank(n: nat, p: Fraction): nat
    requires ValidFraction(p)
  {
    (n * p.numerator + p.denominator - 1) / p.denominator
  }

  lemma Scaled(d: int, x: int, y: int)
    requires d > 0 && x <= y
    ensures d * x <= d * y
  {
    assert 0 <= d * (y - x) == d * y - d * x;
  }

  lemma QuotientRange(a: int, d: int, n: int)
    requires d > 0 && 1 <= a <= d * n
    ensures 1 <= (a + d - 1) / d <= n
  {
    var b := a + d - 1;
    var q := b / d;
    assert b == d * q + b % d;
    assert d * (n + 1) == d * n + d;
    if q < 1 {
      Scaled(d, q, 0);
    } else if q > n {
      Scaled(d, n + 1, q);
    }
  }

  lemma RankInRange(n: nat, p: Fraction)
    requires ValidFraction(p) && n > 0
    ensures 1 <= CeilingRank(n, p) <= n
  {
    Scaled(n, 1, p.numerator);
    Scaled(n, p.numerator, p.denominator);
    assert n * p.denominator == p.denominator * n;
    QuotientRange(n * p.numerator, p.denominator, n);
  }

  /** `nearest_rank_percentile`; None where it raises ValueError. */
  function NearestRank(values: seq<real>, p: Fraction): (r: Option<real>)
    ensures r.Some? <==> values != [] && ValidFraction(p)
    ensures r.Some? ==> r.value in values
  {
    if values == [] || !ValidFraction(p) then None
    else
      var ordered := Sort(values, RealLeq);
      SortPermutes(values, RealLeq);
      RankInRange(|values|, p);
      assert ordered[CeilingRank(|values|, p) - 1] in ordered;
      Some(ordered[CeilingRank(|values|, p) - 1])
  }

  function NinetyFifth(): Fraction { Fraction(19, 20) }

  /** max(values) */
  function Maximum(values: seq<real>): (r: real)
    requires values != []
    ensures r in values && forall v | v in values :: v <= r
  {
    var last := values[|values| - 1];
    if |values| == 1 then last
    else
      var before := Maximum(values[..|values| - 1]);
      assert values == values[..|values| - 1] + [last];
      if before < last then last else before
  }

  datatype Budget = Budget(passed: bool, expectedSamples: int, observedSamples: nat, limit: real, p95: Option<real>,
                           maximum: Option<real>)

  /** `evaluate_duration_budget` */
  function EvaluateDurationBudget(samples: seq<real>, expectedSamples: int, limit: real): Budget {
    var p95 := if samples != [] then NearestRank(samples, NinetyFifth()) else None;
    Budget(|samples| == expectedSamples && p95.Some? && p95.value <= limit, expectedSamples, |samples|, limit, p95,
           if samples != [] then Some(Maximum(samples)) else None)
  }

  // What the budget means.

  predicate Above(value: real, limit: real) { value > limit }

  function CountAbove(s: seq<real>, limit: real): nat {
    |Filter(s, (value: real) => Above(value, limit))|
  }

  lemma {:induction false} FilterAll(s: seq<real>, keep: real -> bool)
    requires forall i | 0 <= i < |s| :: keep(s[i])
    ensures Filter(s, keep) == s
  {
    if s != [] {
      FilterAll(s[1..], keep);
    }
  }

  /** In a sorted list, being at most the limit at place k leaves at most the places behind k
      for values above the limit, and conversely. */
  lemma RankByCount(s: seq<real>, k: nat, limit: real)
    requires Sorted(s, RealLeq) && k < |s|
    ensures s[k] <= limit <==> CountAbove(s, limit) <= |s| - 1 - k
  {
    var above := (value: real) => Above(value, limit);
    if s[k] <= limit {
      var low, high := s[..k + 1], s[k + 1..];
      assert s == low + high;
      FilterAppend(low, high, above);
      FilterNone(low, above);
      assert forall i | 0 <= i < k :: RealLeq(s[i], s[k]);
      FilterShorter(high, above);
    } else {
      var low, high := s[..k], s[k..];
      assert s == low + high;
      FilterAppend(low, high, above);
      assert forall i | k < i < |s| :: RealLeq(s[k], s[i]);
      FilterAll(high, above);
    }
  }

  /** A percentile is at most the limit exactly when few enough values exceed the limit,
      whatever their order. */
  lemma PercentileByCount(values: seq<real>, p: Fraction, limit: real)
    requires values != [] && ValidFraction(p)
    ensures NearestRank(values, p).value <= limit
            <==> CountAbove(values, limit) <= |values| - CeilingRank(|values|, p)
  {
    var ordered := Sort(values, RealLeq);
    RealOrder();
    SortSorts(values, RealLeq);
    SortPermutes(values, RealLeq);
    RankInRange(|values|, p);
    RankByCount(ordered, CeilingRank(|values|, p) - 1, limit);
    FilterPermutes(ordered, values, (value: real) => Above(value, limit));
  }

  lemma NinetyFifthRank(n: nat)
    ensures n - CeilingRank(n, NinetyFifth()) == n / 20
  {
  }

  /** The p95 budget passes exactly when the expected positive number of samples is there and at
      most one sample in twenty (rounded down) exceeds the limit. */
  lemma BudgetMeaning(samples: seq<real>, expectedSamples: int, limit: real)
    ensures EvaluateDurationBudget(samples, expectedSamples, limit).passed
            <==> |samples| == expectedSamples > 0 && CountAbove(samples, limit) <= expectedSamples / 20
  {
    if samples != [] {
      PercentileByCount(samples, NinetyFifth(), limit);
      NinetyFifthRank(|samples|);
    }
  }

  /** For fewer than twenty samples the p95 is the maximum, which the timing decision over three
      samples takes it to be. */
  lemma SmallSampleMaximum(values: seq<real>)
    requires 1 <= |values| <= 19
    ensures NearestRank(values, NinetyFifth()).Some?
    ensures var p95 := NearestRank(values, NinetyFifth()).value;
            p95 in values && forall v | v in values :: v <= p95
  {
    var ordered := Sort(values, RealLeq);
    var p95 := NearestRank(values, NinetyFifth()).value;
    RealOrder();
    SortSorts(values, RealLeq);
    SortPermutes(values, RealLeq);
    NinetyFifthRank(|values|);
    assert p95 == ordered[|ordered| - 1];
    assert p95 in ordered;
    forall v | v in values ensures v <= p95 {
      assert v in ordered;
      var i :| 0 <= i < |ordered| && ordered[i] == v;
      assert i < |ordered| - 1 ==> RealLeq(ordered[i], ordered[|ordered| - 1]);
    }
  }

  /** The rank is the least whole number that is not below n times the fraction. */
  lemma RankExactly(n: nat, p: Fraction, k: nat)
    requires ValidFraction(p)
    ensures CeilingRank(n, p) == k
            <==> (k - 1) * p.denominator < n * p.numerator <= k * p.denominator
  {
    var a, d := n * p.numerator, p.denominator;
    var q := CeilingRank(n, p);
    assert a + d - 1 == d * q + (a + d - 1) % d;
    assert d * q == q * d && (q - 1) * d == q * d - d && (k - 1) * d == k * d - d;
    if k < q {
      Scaled(d, k, q - 1);
    } else if q < k {
      Scaled(d, q, k - 1);
    }
  }

  /** The fields of the evidence: the p95 is the least sample with at most one in twenty above it, and
      the maximum is the greatest. */
  lemma BudgetFields(samples: seq<real>, expectedSamples: int, limit: real)
    ensures var b := EvaluateDurationBudget(samples, expectedSamples, limit);
            && b.expectedSamples == expectedSamples && b.observedSamples == |samples| && b.limit == limit
            && (samples == [] ==> b.p95.None? && b.maximum.None?)
            && (samples != [] ==>
                  && b.p95.Some? && b.p95.value in samples && b.maximum.Some? && b.maximum.value in samples
                  && CountAbove(samples, b.p95.value) <= |samples| / 20
                  && (forall u | u in samples && u < b.p95.value :: CountAbove(samples, u) > |samples| / 20)
                  && forall u | u in samples :: u <= b.maximum.value)
  {
    if samples != [] {
      var p95 := NearestRank(samples, NinetyFifth()).value;
      PercentileByCount(samples, NinetyFifth(), p95);
      NinetyFifthRank(|samples|);
      forall u | u in samples && u < p95 ensures CountAbove(samples, u) > |samples| / 20 {
        PercentileByCount(samples, NinetyFifth(), u);
      }
    }
  }
}
