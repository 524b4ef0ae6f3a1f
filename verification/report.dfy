/** The figures generate_report prints for one set of lists: unit, count and the two summaries. */
module Report {
  import opened Durations
  import opened Statistics

  /** A display unit: the divisor applied to microsecond values and its name. */
  datatype Unit = Unit(factor: real, name: string)

  const Micros := Unit(1.0, "\U{03BC}s")
  const Millis := Unit(1000.0, "ms")
  const Seconds := Unit(1000000.0, "s")

  /** choose_unit: the largest unit in which the mean is still at least 1, capped at seconds. */
  function ChooseUnit(xs: seq<real>): (u: Unit)
    ensures u == Micros || u == Millis || u == Seconds
    ensures xs == [] ==> u == Micros
    ensures xs != [] ==> (u == Micros <==> Mean(xs) < 1000.0) && (u == Seconds <==> Mean(xs) >= 1000000.0)
  {
    if xs == [] then Micros
    else
      var average := Mean(xs);
      if average < 1000.0 then Micros
      else if average < 1000000.0 then Millis
      else Seconds
  }

  /** `[d / factor for d in xs]`. */
  function Scale(xs: seq<real>, factor: real): (r: seq<real>)
    requires factor > 0.0
    ensures |r| == |xs| && forall i :: 0 <= i < |xs| ==> r[i] == xs[i] / factor
  {
    seq(|xs|, i requires 0 <= i < |xs| => xs[i] / factor)
  }

  /** Every figure of a summary divided by `factor`; the count stays. */
  function ScaleStats(st: Stats, factor: real): Stats
    requires factor > 0.0
  {
    match st
    case NoData => NoData
    case Summary(n, lo, hi, mean, p50, p75, p95, p99) =>
      Summary(n, lo / factor, hi / factor, mean / factor, p50 / factor, p75 / factor, p95 / factor, p99 / factor)
  }

  lemma ScaleTail(xs: seq<real>, factor: real)
    requires factor > 0.0 && xs != []
    ensures Scale(xs, factor)[1..] == Scale(xs[1..], factor)
  {
  }

  lemma DivMonotone(x: real, y: real, factor: real)
    requires factor > 0.0
    ensures x <= y <==> x / factor <= y / factor
  {
    assert x / factor * factor == x && y / factor * factor == y;
    if x / factor <= y / factor {
      assert (y / factor - x / factor) * factor >= 0.0;
    }
  }

  lemma {:induction false} InsertScale(x: real, s: seq<real>, factor: real)
    requires factor > 0.0
    ensures Insert(x / factor, Scale(s, factor)) == Scale(Insert(x, s), factor)
    decreases |s|
  {
    if s != [] {
      DivMonotone(x, s[0], factor);
      ScaleTail(s, factor);
      InsertScale(x, s[1..], factor);
      if x > s[0] {
        ScaleTail(Insert(x, s), factor);
      }
    }
  }

  /** Dividing every value by a positive factor keeps their order. */
  lemma {:induction false} SortScale(xs: seq<real>, factor: real)
    requires factor > 0.0
    ensures Sort(Scale(xs, factor)) == Scale(Sort(xs), factor)
    decreases |xs|
  {
    if xs != [] {
      ScaleTail(xs, factor);
      SortScale(xs[1..], factor);
      InsertScale(xs[0], Sort(xs[1..]), factor);
    }
  }

  lemma {:induction false} SumScale(xs: seq<real>, factor: real)
    requires factor > 0.0
    ensures Sum(Scale(xs, factor)) == Sum(xs) / factor
    decreases |xs|
  {
    if xs != [] {
      ScaleTail(xs, factor);
      SumScale(xs[1..], factor);
    }
  }

  /** Interpolation commutes with division by a positive factor. */
  lemma InterpolateScale(a: real, b: real, c: real, factor: real)
    requires factor > 0.0
    ensures (a + c * (b - a)) / factor == a / factor + c * (b / factor - a / factor)
  {
    var x, y := a / factor, b / factor;
    assert a == x * factor && b == y * factor;
    assert a + c * (b - a) == (x + c * (y - x)) * factor;
  }

  lemma PercentileScale(s: seq<real>, p: nat, factor: real)
    requires factor > 0.0 && s != [] && p <= 100
    ensures Percentile(Scale(s, factor), p) == Percentile(s, p) / factor
  {
    var t := Scale(s, factor);
    var lo, frac := Cell(|s| - 1, p), Fraction(|s| - 1, p);
    assert t[lo] == s[lo] / factor;
    if lo + 1 < |s| {
      assert t[lo + 1] == s[lo + 1] / factor;
      InterpolateScale(s[lo], s[lo + 1], frac, factor);
    }
  }

  lemma DivSwap(a: real, n: real, factor: real)
    requires n > 0.0 && factor > 0.0
    ensures (a / factor) / n == (a / n) / factor
  {
    var x, y := (a / factor) / n, (a / n) / factor;
    assert x * n == a / factor;
    assert x * n * factor == a;
    assert y * factor == a / n;
    assert y * factor * n == a;
    assert (x - y) * (n * factor) == 0.0;
  }

  lemma MeanScale(xs: seq<real>, factor: real)
    requires factor > 0.0 && xs != []
    ensures Mean(Scale(xs, factor)) == Mean(xs) / factor
  {
    SumScale(xs, factor);
    DivSwap(Sum(xs), |xs| as real, factor);
  }

  /** The ends and percentiles of the sorted values, divided by a positive factor. */
  lemma SortedScale(xs: seq<real>, factor: real)
    requires factor > 0.0 && xs != []
    ensures var s, t := Sort(xs), Sort(Scale(xs, factor));
            |s| == |t| == |xs| && t[0] == s[0] / factor && t[|t| - 1] == s[|s| - 1] / factor
            && Percentile(t, 50) == Percentile(s, 50) / factor && Percentile(t, 75) == Percentile(s, 75) / factor
            && Percentile(t, 95) == Percentile(s, 95) / factor && Percentile(t, 99) == Percentile(s, 99) / factor
  {
    SortFacts(xs);
    SortScale(xs, factor);
    ScaledFigures(Sort(xs), factor);
  }

  /** The ends and percentiles of a list, divided by a positive factor. */
  lemma ScaledFigures(s: seq<real>, factor: real)
    requires factor > 0.0 && s != []
    ensures var t := Scale(s, factor);
            t[0] == s[0] / factor && t[|t| - 1] == s[|s| - 1] / factor
            && Percentile(t, 50) == Percentile(s, 50) / factor && Percentile(t, 75) == Percentile(s, 75) / factor
            && Percentile(t, 95) == Percentile(s, 95) / factor && Percentile(t, 99) == Percentile(s, 99) / factor
  {
    PercentileScale(s, 50, factor);
    PercentileScale(s, 75, factor);
    PercentileScale(s, 95, factor);
    PercentileScale(s, 99, factor);
  }

  /** The summary of the scaled values is the summary of the values, scaled. */
  lemma StatisticsScale(xs: seq<real>, factor: real)
    requires factor > 0.0
    ensures ComputeStatistics(Scale(xs, factor)) == ScaleStats(ComputeStatistics(xs), factor)
  {
    if xs != [] {
      SummaryOf(xs);
      SummaryOf(Scale(xs, factor));
      SortedScale(xs, factor);
      MeanScale(xs, factor);
    }
  }

  /** The mean in the chosen unit is below 1000 unless the unit is seconds, and at least 1 unless it is microseconds. */
  lemma ChooseUnitScaledMean(xs: seq<real>)
    requires xs != []
    ensures var u := ChooseUnit(xs);
            Mean(Scale(xs, u.factor)) == Mean(xs) / u.factor
            && (u != Seconds ==> Mean(Scale(xs, u.factor)) < 1000.0)
            && (u != Micros ==> Mean(Scale(xs, u.factor)) >= 1.0)
  {
    var u := ChooseUnit(xs);
    MeanScale(xs, u.factor);
  }

  /** What generate_report prints, before rounding: unit, request count and both summaries. */
  datatype ReportFigures = ReportFigures(unit: Unit, total: nat, success: Stats, failure: Stats)

  /** The `count` field: 0 for an empty list. */
  function Count(st: Stats): nat {
    if st.NoData? then 0 else st.count
  }

  /**
   * generate_report: one unit for both lists, chosen from all values together; the
   * request count is the number of values in both lists.
   */
  function GenerateReport(b: Buckets): (r: ReportFigures)
    ensures r.unit == ChooseUnit(b.success + b.failure)
    ensures r.total == |b.success| + |b.failure|
    ensures r.success == ScaleStats(ComputeStatistics(b.success), r.unit.factor)
    ensures r.failure == ScaleStats(ComputeStatistics(b.failure), r.unit.factor)
  {
    var u := ChooseUnit(b.success + b.failure);
    var success := ComputeStatistics(Scale(b.success, u.factor));
    var failure := ComputeStatistics(Scale(b.failure, u.factor));
    StatisticsScale(b.success, u.factor);
    StatisticsScale(b.failure, u.factor);
    ReportFigures(u, Count(success) + Count(failure), success, failure)
  }
}
