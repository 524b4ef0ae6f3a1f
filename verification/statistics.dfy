/**
 * compute_statistics on exact reals: count, minimum, maximum, mean and the 50th, 75th,
 * 95th and 99th percentiles with linear interpolation between closest ranks.
 */
module Statistics {

  function Sum(xs: seq<real>): real
    decreases |xs|
  {
    if xs == [] then 0.0 else xs[0] + Sum(xs[1..])
  }

  /** `np.mean`. */
  function Mean(xs: seq<real>): (m: real)
    requires xs != []
    ensures m * |xs| as real == Sum(xs)
  {
    Sum(xs) / |xs| as real
  }

  ghost predicate Sorted(s: seq<real>) {
    forall i, j :: 0 <= i < j < |s| ==> s[i] <= s[j]
  }

  function Insert(x: real, s: seq<real>): seq<real>
    decreases |s|
  {
    if s == [] || x <= s[0] then [x] + s else [s[0]] + Insert(x, s[1..])
  }

  /** The values in ascending order, as the percentile computation sorts them. */
  function Sort(xs: seq<real>): seq<real>
    decreases |xs|
  {
    if xs == [] then [] else Insert(xs[0], Sort(xs[1..]))
  }

  lemma {:induction false} InsertPermutes(x: real, s: seq<real>)
    ensures multiset(Insert(x, s)) == multiset(s) + multiset{x}
    ensures |Insert(x, s)| == |s| + 1
    decreases |s|
  {
    if s != [] && x > s[0] {
      InsertPermutes(x, s[1..]);
      assert s == [s[0]] + s[1..];
    }
  }

  lemma {:induction false} InsertSorted(x: real, s: seq<real>)
    requires Sorted(s)
    ensures Sorted(Insert(x, s))
    decreases |s|
  {
    if s != [] && x > s[0] {
      var r := Insert(x, s[1..]);
      InsertSorted(x, s[1..]);
      InsertPermutes(x, s[1..]);
      forall k | 0 <= k < |r| ensures s[0] <= r[k] {
        assert r[k] in multiset(s[1..]) + multiset{x};
        if r[k] != x {
          assert r[k] in s[1..];
        }
      }
      assert Insert(x, s) == [s[0]] + r;
    }
  }

  lemma {:induction false} SortFacts(xs: seq<real>)
    ensures Sorted(Sort(xs))
    ensures multiset(Sort(xs)) == multiset(xs)
    ensures |Sort(xs)| == |xs|
    decreases |xs|
  {
    if xs != [] {
      SortFacts(xs[1..]);
      InsertPermutes(xs[0], Sort(xs[1..]));
      InsertSorted(xs[0], Sort(xs[1..]));
      assert xs == [xs[0]] + xs[1..];
    }
  }

  /** Sorting values that are already in order leaves them as they are. */
  lemma {:induction false} SortOfSorted(xs: seq<real>)
    requires Sorted(xs)
    ensures Sort(xs) == xs
    decreases |xs|
  {
    if xs != [] {
      SortOfSorted(xs[1..]);
      assert xs == [xs[0]] + xs[1..];
    }
  }

  /** Where the position `a * p / 100` of a percentile falls for the extreme percentages. */
  lemma RankFacts(a: nat, p: nat)
    requires p <= 100
    ensures a * p / 100 <= a
    ensures p == 0 ==> a * p == 0
    ensures p == 100 ==> a * p / 100 == a && a * p % 100 == 0
  {
    assert a * p <= a * 100;
    if p == 100 {
      assert a * p == a * 100;
    }
  }

  /**
   * `np.percentile(s, p)` of sorted `s`, in the default linear mode: the value at the
   * fractional position `(n - 1) * p / 100`, interpolated between its two neighbours.
   */
  function Percentile(s: seq<real>, p: nat): (r: real)
    requires s != [] && p <= 100
    ensures p == 0 ==> r == s[0]
    ensures p == 100 ==> r == s[|s| - 1]
  {
    Interpolate(s, Cell(|s| - 1, p), Fraction(|s| - 1, p))
  }

  /** The whole part of the position `a * p / 100` of a percentile among positions `0..a`. */
  function Cell(a: nat, p: nat): (k: nat)
    requires p <= 100
    ensures k <= a
    ensures p == 0 ==> k == 0
    ensures p == 100 ==> k == a
  {
    RankFacts(a, p);
    a * p / 100
  }

  /** The fractional part of the position `a * p / 100`, in hundredths. */
  function Fraction(a: nat, p: nat): (f: real)
    requires p <= 100
    ensures 0.0 <= f < 1.0
    ensures p == 0 || p == 100 ==> f == 0.0
  {
    RankFacts(a, p);
    (a * p % 100) as real / 100.0
  }

  /** The value a fraction `frac` of the way from `s[lo]` to the next value, or `s[lo]` at the last position. */
  function Interpolate(s: seq<real>, lo: nat, frac: real): real
    requires lo < |s|
  {
    if lo + 1 < |s| then s[lo] + frac * (s[lo + 1] - s[lo]) else s[lo]
  }

  /** On sorted values an interpolation stays within its step. */
  lemma InterpolateBetween(s: seq<real>, lo: nat, frac: real)
    requires lo < |s| && Sorted(s) && 0.0 <= frac <= 1.0
    ensures s[lo] <= Interpolate(s, lo, frac)
    ensures lo + 1 < |s| ==> Interpolate(s, lo, frac) <= s[lo + 1]
  {
    if lo + 1 < |s| {
      var d := s[lo + 1] - s[lo];
      assert d >= 0.0;
      assert (1.0 - frac) * d >= 0.0;
      assert 0.0 <= frac * d;
    }
  }

  /** On sorted values, interpolating at a later position never gives a smaller value. */
  lemma InterpolateMonotone(s: seq<real>, l1: nat, f1: real, l2: nat, f2: real)
    requires l1 <= l2 < |s| && Sorted(s)
    requires 0.0 <= f1 <= 1.0 && 0.0 <= f2 <= 1.0 && (l1 == l2 ==> f1 <= f2)
    ensures Interpolate(s, l1, f1) <= Interpolate(s, l2, f2)
  {
    InterpolateBetween(s, l1, f1);
    InterpolateBetween(s, l2, f2);
    if l1 == l2 {
      if l1 + 1 < |s| {
        LerpMonotone(s[l1], s[l1 + 1], f1, f2);
      }
    } else {
      assert s[l1 + 1] <= s[l2];
    }
  }

  lemma MulMonotone(a: nat, p: nat, q: nat)
    requires p <= q
    ensures a * p <= a * q
  {
  }

  /** A percentile lies between the two sorted values around its position. */
  lemma PercentileBetween(s: seq<real>, p: nat)
    requires s != [] && p <= 100 && Sorted(s)
    ensures var lo := Cell(|s| - 1, p);
            s[lo] <= Percentile(s, p) && (lo + 1 < |s| ==> Percentile(s, p) <= s[lo + 1])
  {
    InterpolateBetween(s, Cell(|s| - 1, p), Fraction(|s| - 1, p));
  }

  /** A larger percentage falls in the same or a later cell, and further along within the same cell. */
  lemma CellsOrdered(a: nat, p: nat, q: nat)
    requires p <= q
    requires q <= 100
    ensures Cell(a, p) <= Cell(a, q)
    ensures Cell(a, p) == Cell(a, q) ==> Fraction(a, p) <= Fraction(a, q)
  {
    MulMonotone(a, p, q);
  }

  /** Interpolating further along a nondecreasing step gives a value at least as large. */
  lemma LerpMonotone(lo: real, hi: real, f: real, g: real)
    requires lo <= hi && f <= g
    ensures lo + f * (hi - lo) <= lo + g * (hi - lo)
  {
    MulNonneg(g - f, hi - lo);
    assert g * (hi - lo) - f * (hi - lo) == (g - f) * (hi - lo);
  }

  lemma MulNonneg(a: real, b: real)
    requires 0.0 <= a && 0.0 <= b
    ensures 0.0 <= a * b
  {
  }

  /** Percentiles never decrease as `p` grows, and stay between the smallest and largest value. */
  lemma PercentileMonotone(s: seq<real>, p: nat, q: nat)
    requires s != [] && p <= q <= 100 && Sorted(s)
    ensures s[0] <= Percentile(s, p) <= Percentile(s, q) <= s[|s| - 1]
  {
    var a := |s| - 1;
    CellsOrdered(a, p, q);
    InterpolationChain(s, Cell(a, p), Fraction(a, p), Cell(a, q), Fraction(a, q));
  }

  /** Two ordered positions interpolate to ordered values between the smallest and the largest. */
  lemma InterpolationChain(s: seq<real>, lp: nat, fp: real, lq: nat, fq: real)
    requires Sorted(s) && lp <= lq < |s|
    requires 0.0 <= fp <= 1.0 && 0.0 <= fq <= 1.0 && (lp == lq ==> fp <= fq)
    ensures s[0] <= Interpolate(s, lp, fp) <= Interpolate(s, lq, fq) <= s[|s| - 1]
  {
    InterpolateMonotone(s, 0, 0.0, lp, fp);
    InterpolateMonotone(s, lp, fp, lq, fq);
    if lq + 1 < |s| {
      InterpolateMonotone(s, lq, fq, |s| - 1, 0.0);
    }
  }

  /** The `describe`/`np.percentile` results kept by the report, or the all-`'-'` record of an empty list. */
  datatype Stats =
    | NoData
    | Summary(count: nat, min: real, max: real, mean: real, p50: real, p75: real, p95: real, p99: real)

  /** The bounds of a sum in terms of the smallest and largest value. */
  lemma {:induction false} SumBounds(xs: seq<real>, lo: real, hi: real)
    requires forall i :: 0 <= i < |xs| ==> lo <= xs[i] <= hi
    ensures |xs| as real * lo <= Sum(xs) <= |xs| as real * hi
    decreases |xs|
  {
    if xs != [] {
      SumBounds(xs[1..], lo, hi);
    }
  }

  lemma DivBounds(total: real, n: real, lo: real, hi: real)
    requires n > 0.0 && n * lo <= total <= n * hi
    ensures lo <= total / n <= hi
  {
    var m := total / n;
    assert m * n == total;
    assert (m - lo) * n >= 0.0 && (hi - m) * n >= 0.0;
  }

  /** The mean lies between the smallest and the largest value. */
  lemma MeanBetween(xs: seq<real>, lo: real, hi: real)
    requires xs != [] && forall i :: 0 <= i < |xs| ==> lo <= xs[i] <= hi
    ensures lo <= Mean(xs) <= hi
  {
    SumBounds(xs, lo, hi);
    DivBounds(Sum(xs), |xs| as real, lo, hi);
  }

  /** The first and last sorted values are the smallest and largest input values. */
  lemma SortedEnds(xs: seq<real>)
    requires xs != []
    ensures Sorted(Sort(xs)) && |Sort(xs)| == |xs|
    ensures Sort(xs)[0] in xs && Sort(xs)[|xs| - 1] in xs
    ensures forall i :: 0 <= i < |xs| ==> Sort(xs)[0] <= xs[i] <= Sort(xs)[|xs| - 1]
  {
    var s := Sort(xs);
    SortFacts(xs);
    assert s[0] in multiset(xs) && s[|s| - 1] in multiset(xs);
    forall i | 0 <= i < |xs| ensures s[0] <= xs[i] <= s[|s| - 1] {
      assert xs[i] in multiset(s);
      var k :| 0 <= k < |s| && s[k] == xs[i];
    }
  }

  /** compute_statistics, before rounding to two decimals. */
  function ComputeStatistics(xs: seq<real>): (st: Stats)
    ensures st.NoData? <==> xs == []
    ensures st.Summary? ==> st.count == |xs|
    ensures st.Summary? ==> (forall i :: 0 <= i < |xs| ==> st.min <= xs[i]) && st.min in xs
    ensures st.Summary? ==> (forall i :: 0 <= i < |xs| ==> xs[i] <= st.max) && st.max in xs
    ensures st.Summary? ==> st.min <= st.p50 <= st.p75 <= st.p95 <= st.p99 <= st.max
    ensures st.Summary? ==> st.min <= st.mean <= st.max
    ensures st.Summary? ==> st.mean == Mean(xs)
    ensures st.Summary? ==> st.p50 == Percentile(Sort(xs), 50) && st.p75 == Percentile(Sort(xs), 75)
                            && st.p95 == Percentile(Sort(xs), 95) && st.p99 == Percentile(Sort(xs), 99)
  {
    if xs == [] then NoData
    else
      var s := Sort(xs);
      SortedEnds(xs);
      PercentileMonotone(s, 50, 75);
      PercentileMonotone(s, 75, 95);
      PercentileMonotone(s, 95, 99);
      PercentileMonotone(s, 99, 100);
      MeanBetween(xs, s[0], s[|s| - 1]);
      Summary(|xs|, s[0], s[|s| - 1], Mean(xs),
              Percentile(s, 50), Percentile(s, 75), Percentile(s, 95), Percentile(s, 99))
  }
  /** The summary of a non-empty list, field by field, in terms of its sorted values. */
  lemma SummaryOf(xs: seq<real>)
    requires xs != []
    ensures var s := Sort(xs);
            |s| == |xs| &&
            ComputeStatistics(xs) == Summary(|xs|, s[0], s[|s| - 1], Mean(xs),
              Percentile(s, 50), Percentile(s, 75), Percentile(s, 95), Percentile(s, 99))
  {
    SortedEnds(xs);
  }


  /** The ten values 1 to 10. */
  const OneToTen: seq<real> := seq(10, i => (i + 1) as real)

  /** The values 1 to 10 are already sorted. */
  lemma OneToTenSorted()
    ensures Sorted(OneToTen) && Sort(OneToTen) == OneToTen
  {
    assert Sorted(OneToTen);
    SortOfSorted(OneToTen);
  }

  /** Interpolating in the values 1 to 10 at 50 and 95 percent. */
  lemma OneToTenInterpolation()
    ensures Percentile(OneToTen, 50) == 5.5 && Percentile(OneToTen, 95) == 9.55
  {
    assert OneToTen[4] == 5.0 && OneToTen[5] == 6.0 && OneToTen[8] == 9.0 && OneToTen[9] == 10.0;
  }

  /** For the values 1 to 10, the median is 5.5 and the 95th percentile 9.55. */
  lemma OneToTenPercentiles()
    ensures var st := ComputeStatistics(OneToTen);
            st.Summary? && st.p50 == 5.5 && st.p95 == 9.55
  {
    OneToTenSorted();
    OneToTenInterpolation();
  }
}
