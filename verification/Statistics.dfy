/** Means, medians and percentiles of the experiment (`experiment_report.py`, `experiment_analysis.py`). */
module Statistics {
  import opened Basics
  import opened Ordering
  import Segments

  datatype StatisticsError = FractionOutOfRange | IndexOutOfRange

  predicate AtMost(a: real, b: real) {
    a <= b
  }

  function SortedValues(values: seq<real>): seq<real> {
    StableSort(values, AtMost)
  }

  function Total(values: seq<real>): real {
    if values == [] then 0.0 else Total(values[..|values| - 1]) + values[|values| - 1]
  }

  /** `_mean` */
  function Mean(values: seq<real>): Option<real> {
    if values == [] then None else Some(Total(values) / |values| as real)
  }

  /** `statistics.median`, as `_median` uses it. */
  function Median(values: seq<real>): Option<real> {
    var items, n := SortedValues(values), |values|;
    SameLength(values);
    if n == 0 then None
    else if n % 2 == 1 then Some(items[n / 2])
    else Some((items[n / 2 - 1] + items[n / 2]) / 2.0)
  }

  lemma SameLength(values: seq<real>)
    ensures |SortedValues(values)| == |values|
  {
    SameElements(SortedValues(values), values);
  }

  function Smaller(a: int, b: int): int {
    if a <= b then a else b
  }

  // ------------------------------------------------------------ the report's percentile

  /** A weighted mean of two values. */
  function Mix(a: real, b: real, weight: real): real {
    a * (1.0 - weight) + b * weight
  }

  /** The point at a position of a list, between its neighbours. */
  function Between(items: seq<real>, position: real): real
    requires items != [] && 0.0 <= position <= |items| as real - 1.0
  {
    var lower := position.Floor;
    var upper := Smaller(lower + 1, |items| - 1);
    var weight := position - lower as real;
    Mix(items[lower], items[upper], weight)
  }

  /** Where in a list of n values the fraction falls. */
  function Position(n: nat, fraction: real): real {
    (n as real - 1.0) * fraction
  }

  lemma PositionInList(n: nat, fraction: real)
    requires n >= 1 && 0.0 <= fraction <= 1.0
    ensures 0.0 <= Position(n, fraction) <= n as real - 1.0
  {
    var k := n as real - 1.0;
    Segments.ProductNonNegative(k, fraction);
    Segments.ProductNonNegative(k, 1.0 - fraction);
    assert k * (1.0 - fraction) == k - k * fraction;
  }

  lemma PositionAscends(n: nat, f: real, g: real)
    requires n >= 1 && f <= g
    ensures Position(n, f) <= Position(n, g)
  {
    var k := n as real - 1.0;
    Segments.ProductNonNegative(k, g - f);
    assert k * (g - f) == k * g - k * f;
  }

  /** `experiment_report._percentile` */
  function ReportPercentile(values: seq<real>, fraction: real): Result<Option<real>, StatisticsError> {
    var items := SortedValues(values);
    if items == [] then Ok(None)
    else if !(0.0 <= fraction <= 1.0) then Err(FractionOutOfRange)
    else if |items| == 1 then Ok(Some(items[0]))
    else
      PositionInList(|items|, fraction);
      Ok(Some(Between(items, Position(|items|, fraction))))
  }

  // ------------------------------------------------------------ the analysis's percentile

  /** An index as Python reads it: from the end when it is negative. */
  function At(items: seq<real>, i: int): Option<real> {
    if 0 <= i < |items| then Some(items[i])
    else if -|items| <= i < 0 then Some(items[|items| + i])
    else None
  }

  function Ceiling(x: real): (c: int)
    ensures x <= c as real < x + 1.0
  {
    -((-x).Floor)
  }

  /** The point at any position, by its neighbours' indexes. */
  function PointAt(items: seq<real>, position: real): Result<Option<real>, StatisticsError> {
    var lower, upper := position.Floor, Ceiling(position);
    var a, b := At(items, lower), At(items, upper);
    if a.None? || b.None? then Err(IndexOutOfRange)
    else if lower == upper then Ok(a)
    else
      var weight := position - lower as real;
      Ok(Some(Mix(a.value, b.value, weight)))
  }

  /** `experiment_analysis._percentile`, which does not look at the fraction. */
  function AnalysisPercentile(values: seq<real>, fraction: real): Result<Option<real>, StatisticsError> {
    var items := SortedValues(values);
    if items == [] then Ok(None)
    else if |items| == 1 then Ok(Some(items[0]))
    else PointAt(items, Position(|items|, fraction))
  }

  /** The two percentiles give the same answer exactly for empty lists and for fractions from 0 to 1. */
  lemma PercentilesAgreeIff(values: seq<real>, fraction: real)
    ensures ReportPercentile(values, fraction) == AnalysisPercentile(values, fraction)
       <==> values == [] || 0.0 <= fraction <= 1.0
  {
    var items := SortedValues(values);
    SameLength(values);
    if 0.0 <= fraction <= 1.0 && |items| > 1 {
      PositionInList(|items|, fraction);
      SamePoint(items, Position(|items|, fraction));
    }
  }

  lemma SamePoint(items: seq<real>, position: real)
    requires items != [] && 0.0 <= position <= |items| as real - 1.0
    ensures PointAt(items, position) == Ok(Some(Between(items, position)))
  {
    var lower, upper := position.Floor, Ceiling(position);
    assert 0 <= lower <= upper <= |items| - 1;
    if lower == upper {
      WholeWeight(items[lower], items[Smaller(lower + 1, |items| - 1)]);
      assert position - lower as real == 0.0;
    } else {
      assert upper == lower + 1 == Smaller(lower + 1, |items| - 1);
      assert At(items, lower) == Some(items[lower]) && At(items, upper) == Some(items[upper]);
    }
  }

  lemma WholeWeight(a: real, b: real)
    ensures Mix(a, b, 0.0) == a
  {
  }

  // ------------------------------------------------------------ order, bounds and the median

  lemma SortedByValue(values: seq<real>)
    ensures Sorted(SortedValues(values), AtMost)
    ensures forall x :: x in SortedValues(values) <==> x in values
  {
    SortSorts(values, AtMost);
    SameElements(SortedValues(values), values);
  }

  lemma Mixed(a: real, b: real, v: real, w: real)
    requires a <= b && 0.0 <= v <= w <= 1.0
    ensures a <= Mix(a, b, v) <= Mix(a, b, w) <= b
  {
    Segments.ProductNonNegative(b - a, v);
    Segments.ProductNonNegative(b - a, w - v);
    Segments.ProductNonNegative(b - a, 1.0 - w);
    assert a * (1.0 - v) + b * v == a + (b - a) * v;
    assert a * (1.0 - w) + b * w == a + (b - a) * w == b - (b - a) * (1.0 - w);
    assert (b - a) * w == (b - a) * v + (b - a) * (w - v);
  }

  /** A point is between its neighbours, and so between the ends. */
  lemma PointWithin(items: seq<real>, x: real)
    requires items != [] && Sorted(items, AtMost)
    requires 0.0 <= x <= |items| as real - 1.0
    ensures items[0] <= items[x.Floor] <= Between(items, x)
    ensures Between(items, x) <= items[Smaller(x.Floor + 1, |items| - 1)] <= items[|items| - 1]
  {
    var i := x.Floor;
    var next := Smaller(i + 1, |items| - 1);
    InOrder(items, 0, i);
    InOrder(items, i, next);
    InOrder(items, next, |items| - 1);
    Mixed(items[i], items[next], x - i as real, x - i as real);
  }

  lemma InOrder(items: seq<real>, i: nat, j: nat)
    requires Sorted(items, AtMost) && i <= j < |items|
    ensures items[i] <= items[j]
  {
    if i < j {
      assert AtMost(items[i], items[j]);
    }
  }

  /** Moving the position up does not move the point down. */
  lemma BetweenAscends(items: seq<real>, x: real, y: real)
    requires items != [] && Sorted(items, AtMost)
    requires 0.0 <= x <= y <= |items| as real - 1.0
    ensures items[0] <= Between(items, x) <= Between(items, y) <= items[|items| - 1]
  {
    var i, j, last := x.Floor, y.Floor, |items| - 1;
    PointWithin(items, x);
    PointWithin(items, y);
    if i == j {
      var a, b, v, w := items[i], items[Smaller(i + 1, last)], x - i as real, y - i as real;
      InOrder(items, i, Smaller(i + 1, last));
      Mixed(a, b, v, w);
      assert Between(items, x) == Mix(a, b, v) && Between(items, y) == Mix(a, b, w);
    } else {
      InOrder(items, Smaller(i + 1, last), j);
    }
  }

  /** For fractions from 0 to 1 the percentile ascends with the fraction and stays within the values. */
  lemma PercentileAscends(values: seq<real>, f: real, g: real)
    requires values != [] && 0.0 <= f <= g <= 1.0
    ensures ReportPercentile(values, f).Ok? && ReportPercentile(values, g).Ok?
    ensures ReportPercentile(values, f).value.Some? && ReportPercentile(values, g).value.Some?
    ensures ReportPercentile(values, f).value.value <= ReportPercentile(values, g).value.value
    ensures exists least, greatest :: && least in values && greatest in values
                                      && (forall x :: x in values ==> least <= x <= greatest)
                                      && least <= ReportPercentile(values, f).value.value
                                      && ReportPercentile(values, g).value.value <= greatest
  {
    var items := SortedValues(values);
    SameLength(values);
    SortedByValue(values);
    Extremes(items, values);
    if |items| > 1 {
      PositionInList(|items|, f);
      PositionInList(|items|, g);
      PositionAscends(|items|, f, g);
      BetweenAscends(items, Position(|items|, f), Position(|items|, g));
    }
    assert items[0] in values && items[|items| - 1] in values;
  }

  lemma Extremes(items: seq<real>, values: seq<real>)
    requires items != [] && Sorted(items, AtMost)
    requires forall x :: x in items <==> x in values
    ensures items[0] in values && items[|items| - 1] in values
    ensures forall x :: x in values ==> items[0] <= x <= items[|items| - 1]
  {
    assert items[0] in items && items[|items| - 1] in items;
    forall x | x in values ensures items[0] <= x <= items[|items| - 1] {
      var i :| 0 <= i < |items| && items[i] == x;
      assert i > 0 ==> AtMost(items[0], items[i]);
      assert i < |items| - 1 ==> AtMost(items[i], items[|items| - 1]);
    }
  }

  /** Half-way through a list. */
  lemma HalfWay(items: seq<real>)
    requires |items| > 1
    ensures 0.0 <= Position(|items|, 0.5) <= |items| as real - 1.0
    ensures Between(items, Position(|items|, 0.5))
         == if |items| % 2 == 1 then items[|items| / 2] else (items[|items| / 2 - 1] + items[|items| / 2]) / 2.0
  {
    var n, half := |items|, |items| / 2;
    PositionInList(n, 0.5);
    var position := Position(n, 0.5);
    if n % 2 == 1 {
      assert n == 2 * half + 1;
      assert position == half as real;
      assert position.Floor == half;
      WholeWeight(items[half], items[Smaller(half + 1, n - 1)]);
    } else {
      assert n == 2 * half;
      assert position == half as real - 0.5;
      assert position.Floor == half - 1;
      assert position - (half - 1) as real == 0.5;
    }
  }

  /** The percentile at one half is the median. */
  lemma HalfIsMedian(values: seq<real>)
    ensures ReportPercentile(values, 0.5) == Ok(Median(values))
    ensures AnalysisPercentile(values, 0.5) == Ok(Median(values))
  {
    PercentilesAgreeIff(values, 0.5);
    SameLength(values);
    if |values| > 1 {
      HalfWay(SortedValues(values));
    }
  }

  // ------------------------------------------------------------ what the statistics mean

  /** The values in ascending order. */
  predicate Arranges(s: seq<real>, values: seq<real>) {
    multiset(s) == multiset(values) && forall i, j :: 0 <= i < j < |s| ==> s[i] <= s[j]
  }

  lemma ArrangementIsSorted(s: seq<real>, values: seq<real>)
    requires Arranges(s, values)
    ensures s == SortedValues(values)
  {
    SortedByValue(values);
    assert TotalPreorder(AtMost);
    SortedIsUnique(s, SortedValues(values), AtMost);
  }

  /** The median is the middle value, or the mean of the two middle ones. */
  lemma MedianIsMiddle(s: seq<real>, values: seq<real>, k: nat)
    requires Arranges(s, values)
    ensures |s| == 2 * k + 1 ==> Median(values) == Some(s[k])
    ensures |s| == 2 * k && k > 0 ==> Median(values) == Some((s[k - 1] + s[k]) / 2.0)
    ensures Median(values).None? <==> values == []
  {
    ArrangementIsSorted(s, values);
    SameLength(values);
  }

  /** The percentile lies on the line between two neighbouring values, as far along as the fraction of the
      whole range falls between their places; at a place of its own it is the value there. */
  lemma PercentileInterpolates(s: seq<real>, values: seq<real>, fraction: real, k: nat, part: real)
    requires Arranges(s, values) && 0.0 <= fraction <= 1.0
    requires k < |s| && 0.0 <= part < 1.0
    requires (|s| as real - 1.0) * fraction == k as real + part
    ensures ReportPercentile(values, fraction).Ok? && ReportPercentile(values, fraction).value.Some?
    ensures part == 0.0 ==> ReportPercentile(values, fraction).value.value == s[k]
    ensures k + 1 < |s| ==> ReportPercentile(values, fraction).value.value == s[k] + part * (s[k + 1] - s[k])
  {
    ArrangementIsSorted(s, values);
    PercentileOfMany(s, values, fraction);
    BetweenAt(s, Position(|s|, fraction), k, part);
  }

  lemma PercentileOfMany(s: seq<real>, values: seq<real>, fraction: real)
    requires s == SortedValues(values) && s != [] && 0.0 <= fraction <= 1.0
    ensures 0.0 <= Position(|s|, fraction) <= |s| as real - 1.0
    ensures ReportPercentile(values, fraction) == Ok(Some(Between(s, Position(|s|, fraction))))
  {
    PositionInList(|s|, fraction);
    if |s| == 1 {
      WholeWeight(s[0], s[0]);
    }
  }

  lemma BetweenAt(s: seq<real>, x: real, k: nat, part: real)
    requires k < |s| && 0.0 <= part < 1.0 && x == k as real + part && x <= |s| as real - 1.0
    ensures part == 0.0 ==> Between(s, x) == s[k]
    ensures k + 1 < |s| ==> Between(s, x) == s[k] + part * (s[k + 1] - s[k])
  {
    assert x.Floor == k;
    WholeWeight(s[k], s[Smaller(k + 1, |s| - 1)]);
    if k + 1 < |s| {
      MixAlong(s[k], s[k + 1], part);
    }
  }

  lemma MixAlong(a: real, b: real, weight: real)
    ensures Mix(a, b, weight) == a + weight * (b - a)
  {
  }

  /** The mean of one value is that value, and the mean of two lists together is their weighted mean. */
  lemma MeanMeans(xs: seq<real>, ys: seq<real>)
    ensures Mean(xs).None? <==> xs == []
    ensures |xs| == 1 ==> Mean(xs).value == xs[0]
    ensures xs != [] && ys != [] ==>
              Mean(xs + ys).Some?
              && |xs + ys| as real * Mean(xs + ys).value
              == |xs| as real * Mean(xs).value + |ys| as real * Mean(ys).value
  {
    if |xs| == 1 {
      TotalOfOne(xs);
      OverOne(xs[0]);
    }
    if xs != [] && ys != [] {
      TotalOfBoth(xs, ys);
      TimesMean(xs + ys);
      TimesMean(xs);
      TimesMean(ys);
    }
  }

  lemma OverOne(x: real)
    ensures x / 1.0 == x
  {
  }

  lemma {:induction false} TotalOfOne(xs: seq<real>)
    requires |xs| == 1
    ensures Total(xs) == xs[0]
  {
    assert Total(xs[..0]) == 0.0;
  }

  lemma {:induction false} TotalOfBoth(xs: seq<real>, ys: seq<real>)
    ensures Total(xs + ys) == Total(xs) + Total(ys)
  {
    if ys == [] {
      assert xs + ys == xs;
    } else {
      assert (xs + ys)[..|xs + ys| - 1] == xs + ys[..|ys| - 1];
      TotalOfBoth(xs, ys[..|ys| - 1]);
    }
  }

  lemma {:induction false} TimesMean(xs: seq<real>)
    requires xs != []
    ensures |xs| as real * Mean(xs).value == Total(xs)
  {
    Undivided(|xs| as real, Total(xs));
  }

  lemma Undivided(n: real, x: real)
    requires n > 0.0
    ensures n * (x / n) == x
  {
  }
}
