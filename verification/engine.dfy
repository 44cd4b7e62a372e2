/**
 * The analysis engine shared by the protocol and the chain front ends: from
 * the filtered points to monthly, yearly and overall summaries.
 */
module Engine {
  import opened Wrappers
  import opened JsValues
  import opened Calendar
  import opened Statistics
  import opened Bucketing
  import opened EntryOrder

  /** `TVLDataPoint`: the date built from an entry's timestamp and the TVL value read from it. */
  datatype Point = Point(date: Instant, tvl: real)

  /** One element of `byMonth` (`K` = the month key string) or `byYear` (`K` = the year). */
  datatype PeriodSummary<K> = PeriodSummary(
    period: K,
    avgTVL: real,
    minTVL: real,
    maxTVL: real,
    startTVL: real,
    endTVL: real,
    changePercent: Number)

  /** `overall`; `variance` is the square of the source's `volatility`. */
  datatype OverallSummary = OverallSummary(
    avgTVL: real,
    minTVL: real,
    maxTVL: real,
    startTVL: real,
    currentTVL: real,
    totalChangePercent: Number,
    variance: real)

  /** `TVLAnalysis` / `ChainTVLAnalysis`. */
  datatype TvlAnalysis = TvlAnalysis(
    byMonth: seq<PeriodSummary<string>>,
    byYear: seq<PeriodSummary<int>>,
    overall: OverallSummary)

  /** What the analysis throws. */
  datatype AnalysisError =
    | InvalidStructure(message: string)  // the selected TVL field is not an array
    | NoValidData(message: string)       // no point survived filtering
    | InvalidTimeValue                   // RangeError of toISOString on an invalid date
    | NullToObject                       // TypeError of Object.entries(null)

  /**
   * `((end - start) / start) * 100` in JavaScript arithmetic: for a zero start
   * the quotient is an infinity of the sign of `end`, or NaN when `end` is 0
   * too. A non-zero start gives a finite percentage which, applied to the
   * start, gives back the end.
   */
  function PercentChange(start: real, end: real): (r: Number)
    ensures start != 0.0 ==> r.Finite? && start + start * r.value / 100.0 == end
    ensures start != 0.0 ==> (r.value == 0.0 <==> end == start)
    ensures start > 0.0 ==> (r.AtLeastZero() <==> end >= start)
    ensures start < 0.0 ==> (r.AtLeastZero() <==> end <= start)
    ensures start == 0.0 ==> (end > 0.0 <==> r.PosInfinity?) && (end < 0.0 <==> r.NegInfinity?) && (end == 0.0 <==> r.NaN?)
  {
    if start != 0.0 then
      var q := (end - start) / start;
      assert start * q == end - start;
      Finite(q * 100.0)
    else if end > 0.0 then PosInfinity
    else if end < 0.0 then NegInfinity
    else NaN
  }

  /**
   * The summary of one bucket: statistics over its values and the change from
   * its first to its last value. The start and end lie within the bucket's
   * range, and a bucket that ends where it starts, such as a single-point
   * bucket, changes by 0% unless it starts at 0.
   */
  function Summarize<K>(period: K, b: Accumulator): (r: PeriodSummary<K>)
    ensures r.period == period && r.startTVL == b.startTVL && r.endTVL == b.endTVL
    ensures r.minTVL <= r.avgTVL <= r.maxTVL
    ensures Coherent(b) ==> r.minTVL <= r.startTVL <= r.maxTVL && r.minTVL <= r.endTVL <= r.maxTVL
    ensures forall i :: 0 <= i < |b.tvls| ==> r.minTVL <= b.tvls[i] <= r.maxTVL
    ensures |b.tvls| > 0 ==> r.minTVL in b.tvls && r.maxTVL in b.tvls
    ensures IsMean(r.avgTVL, b.tvls)
    ensures b.startTVL == b.endTVL && b.startTVL != 0.0 ==> r.changePercent == Finite(0.0)
    ensures r.changePercent == PercentChange(b.startTVL, b.endTVL)
  {
    var s := CalculateStats(b.tvls);
    PeriodSummary(period, s.avg, s.min, s.max, b.startTVL, b.endTVL, PercentChange(b.startTVL, b.endTVL))
  }

  /** `Object.entries(acc).map(...)`: one summary per listed key, in the listed order. */
  function Summaries<K(!new)>(order: seq<K>, buckets: map<K, Accumulator>): (r: seq<PeriodSummary<K>>)
    requires forall k :: k in order ==> k in buckets
    ensures |r| == |order|
    ensures forall i :: 0 <= i < |order| ==> r[i] == Summarize(order[i], buckets[order[i]])
    ensures Periods(r) == order
  {
    seq(|order|, i requires 0 <= i < |order| => Summarize(order[i], buckets[order[i]]))
  }

  /** Every point has a valid date. */
  predicate AllValid(points: seq<Point>) {
    forall i :: 0 <= i < |points| ==> points[i].date.At?
  }

  function Tvls(points: seq<Point>): (r: seq<real>)
    ensures |r| == |points|
    ensures forall i :: 0 <= i < |points| ==> r[i] == points[i].tvl
  {
    seq(|points|, i requires 0 <= i < |points| => points[i].tvl)
  }

  /** The month key of each point. */
  function MonthKeys(points: seq<Point>): (r: seq<string>)
    requires AllValid(points)
    ensures |r| == |points|
    ensures forall i :: 0 <= i < |points| ==> r[i] == MonthKey(points[i].date.ms)
  {
    seq(|points|, i requires 0 <= i < |points| => MonthKey(points[i].date.ms))
  }

  /** The local year of each point. */
  function YearKeys(points: seq<Point>, offset: int -> int): (r: seq<int>)
    requires AllValid(points)
    ensures |r| == |points|
    ensures forall i :: 0 <= i < |points| ==> r[i] == LocalYear(points[i].date.ms, offset)
  {
    seq(|points|, i requires 0 <= i < |points| => LocalYear(points[i].date.ms, offset))
  }

  /** The month accumulator after the monthly reducer. */
  function MonthlyData(points: seq<Point>): Grouping<string>
    requires AllValid(points)
  {
    GroupBy(MonthKeys(points), Tvls(points))
  }

  /** The year accumulator after the yearly reducer. */
  function YearlyData(points: seq<Point>, offset: int -> int): Grouping<int>
    requires AllValid(points)
  {
    GroupBy(YearKeys(points, offset), Tvls(points))
  }

  /**
   * The engine behind `analyzeProtocolData` and `analyzeChainTVLData`, given
   * the filtered, non-empty points in scan order and the host's UTC offset.
   * It fails, with the RangeError of `toISOString`, exactly when some point
   * has an invalid date.
   */
  function Analyze(points: seq<Point>, offset: int -> int): (r: Result<TvlAnalysis, AnalysisError>)
    requires |points| > 0
    ensures r.Ok? <==> AllValid(points)
    ensures r.Err? ==> r.error == InvalidTimeValue
    ensures r.Ok? ==> r.value == Analysis(points, offset)
  {
    if !AllValid(points) then Err(InvalidTimeValue) else Ok(Analysis(points, offset))
  }

  /**
   * The analysis of points with valid dates. The overall summary starts at
   * the first point and ends at the last one, its range covers every point and
   * contains the average, and its spread is non-negative.
   */
  function Analysis(points: seq<Point>, offset: int -> int): (r: TvlAnalysis)
    requires |points| > 0 && AllValid(points)
    ensures r.overall.startTVL == points[0].tvl
    ensures r.overall.currentTVL == points[|points| - 1].tvl
    ensures r.overall.totalChangePercent == PercentChange(points[0].tvl, points[|points| - 1].tvl)
    ensures r.overall.minTVL <= r.overall.avgTVL <= r.overall.maxTVL
    ensures forall i :: 0 <= i < |points| ==> r.overall.minTVL <= points[i].tvl <= r.overall.maxTVL
    ensures r.overall.variance >= 0.0
    ensures r.overall == Overall(Tvls(points))
    ensures r.byMonth == MonthSummaries(points) && r.byYear == YearSummaries(points, offset)
  {
    TvlAnalysis(MonthSummaries(points), YearSummaries(points, offset), Overall(Tvls(points)))
  }

  /** `byMonth`: the monthly buckets in insertion order. */
  function MonthSummaries(points: seq<Point>): seq<PeriodSummary<string>>
    requires AllValid(points)
  {
    var months := MonthlyData(points);
    Summaries(months.order, months.buckets)
  }

  /** `byYear`: the yearly buckets in `Object.entries` order. */
  function YearSummaries(points: seq<Point>, offset: int -> int): seq<PeriodSummary<int>>
    requires AllValid(points)
  {
    var years := YearlyData(points, offset);
    Summaries(YearEntriesOrder(years.order), years.buckets)
  }

  /**
   * `overall`: statistics over all values, from the first value to the last
   * (`currentTVL`), with the total change between them.
   */
  function Overall(tvls: seq<real>): (r: OverallSummary)
    requires |tvls| > 0
    ensures r.startTVL == tvls[0] && r.currentTVL == tvls[|tvls| - 1]
    ensures r.totalChangePercent == PercentChange(tvls[0], tvls[|tvls| - 1])
    ensures r.minTVL <= r.avgTVL <= r.maxTVL
    ensures forall i :: 0 <= i < |tvls| ==> r.minTVL <= tvls[i] <= r.maxTVL
    ensures r.minTVL in tvls && r.maxTVL in tvls
    ensures IsMean(r.avgTVL, tvls)
    ensures r.variance >= 0.0
  {
    var stats := CalculateStats(tvls);
    var last := |tvls| - 1;
    OverallSummary(stats.avg, stats.min, stats.max, tvls[0], tvls[last], PercentChange(tvls[0], tvls[last]), stats.variance)
  }

  /** The periods of a list of summaries, in order. */
  function Periods<K>(s: seq<PeriodSummary<K>>): (r: seq<K>)
    ensures |r| == |s|
    ensures forall i :: 0 <= i < |s| ==> r[i] == s[i].period
  {
    seq(|s|, i requires 0 <= i < |s| => s[i].period)
  }

  /**
   * The reference bucket of key `k`, defined without the reducer: the values of
   * the points with that key in scan order, starting at the first such point
   * and ending at the last.
   */
  function ReferenceBucket<K(==, !new)>(keys: seq<K>, tvls: seq<real>, k: K): Accumulator
    requires |keys| == |tvls|
    requires k in keys
  {
    Accumulator(Select(keys, tvls, k), tvls[FirstIndex(keys, k)], tvls[LastIndex(keys, k)])
  }

  /** The reducer builds exactly the reference buckets. */
  lemma GroupByBuildsReference<K(!new)>(keys: seq<K>, tvls: seq<real>)
    requires |keys| == |tvls|
    ensures forall k :: k in keys ==> GroupBy(keys, tvls).buckets[k] == ReferenceBucket(keys, tvls, k)
  {
    var g := GroupBy(keys, tvls);
    GroupByIsSelect(keys, tvls);
    forall k | k in keys
      ensures g.buckets[k] == ReferenceBucket(keys, tvls, k)
    {
      BucketIsReference(keys, tvls, g, k);
    }
  }

  lemma BucketIsReference<K(!new)>(keys: seq<K>, tvls: seq<real>, g: Grouping<K>, k: K)
    requires |keys| == |tvls| && k in keys
    requires WellFormed(g) && k in g.buckets && g.buckets[k].tvls == Select(keys, tvls, k)
    ensures g.buckets[k] == ReferenceBucket(keys, tvls, k)
  {
    var b := g.buckets[k];
    assert Coherent(b);
    SelectEnds(keys, tvls, k);
  }

  /** Every summary is that of the reference bucket of its period. */
  ghost predicate SummarizesReference<K(!new)>(s: seq<PeriodSummary<K>>, keys: seq<K>, tvls: seq<real>)
    requires |keys| == |tvls|
  {
    forall j :: 0 <= j < |s| ==> s[j].period in keys && s[j] == Summarize(s[j].period, ReferenceBucket(keys, tvls, s[j].period))
  }

  lemma SummariesMatchReference<K(!new)>(keys: seq<K>, tvls: seq<real>, order: seq<K>)
    requires |keys| == |tvls|
    requires forall k :: k in order ==> k in keys
    ensures SummarizesReference(Summaries(order, GroupBy(keys, tvls).buckets), keys, tvls)
  {
    GroupByBuildsReference(keys, tvls);
    var s := Summaries(order, GroupBy(keys, tvls).buckets);
    forall j | 0 <= j < |s|
      ensures s[j].period in keys && s[j] == Summarize(s[j].period, ReferenceBucket(keys, tvls, s[j].period))
    {
      assert order[j] in order;
    }
  }

  /**
   * `byMonth` lists each month key of the points exactly once, in the order of
   * its first point, and summarizes for each month exactly the points dated in
   * it: their values in scan order, from the month's first point to its last.
   */
  lemma MonthlySummaries(points: seq<Point>, offset: int -> int)
    requires |points| > 0 && AllValid(points)
    ensures Distinct(Periods(MonthSummaries(points)))
    ensures forall k :: k in Periods(MonthSummaries(points)) <==> k in MonthKeys(points)
    ensures FirstSeenOrder(Periods(MonthSummaries(points)), MonthKeys(points))
    ensures SummarizesReference(MonthSummaries(points), MonthKeys(points), Tvls(points))
  {
    var keys, tvls := MonthKeys(points), Tvls(points);
    var g := GroupBy(keys, tvls);
    var m := MonthSummaries(points);
    assert Periods(m) == g.order;
    GroupByOrder(keys, tvls);
    SummariesMatchReference(keys, tvls, g.order);
  }

  /** The year order: each key once, array indices first and ascending, other keys by first occurrence. */
  lemma YearOrder(keys: seq<int>, tvls: seq<real>)
    requires |keys| == |tvls|
    ensures Distinct(YearEntriesOrder(GroupBy(keys, tvls).order))
    ensures forall y :: y in YearEntriesOrder(GroupBy(keys, tvls).order) <==> y in keys
    ensures AscendingIndices(YearEntriesOrder(GroupBy(keys, tvls).order))
    ensures OthersInInsertionOrder(YearEntriesOrder(GroupBy(keys, tvls).order), keys)
  {
    var g := GroupBy(keys, tvls);
    var p := YearEntriesOrder(g.order);
    GroupByOrder(keys, tvls);
    YearEntriesKeepInsertionOrder(g.order);
    forall i, j | 0 <= i < j < |p| && !IsArrayIndex(p[i]) && !IsArrayIndex(p[j])
      ensures p[i] in keys && p[j] in keys && FirstIndex(keys, p[i]) < FirstIndex(keys, p[j])
    {
      var a, b := FirstIndex(g.order, p[i]), FirstIndex(g.order, p[j]);
      assert a < b;
      assert FirstIndex(keys, g.order[a]) < FirstIndex(keys, g.order[b]);
    }
  }

  /**
   * `byYear` lists each local year of the points exactly once: years 0 and up
   * first in ascending order, then the negative years in the order of their
   * first point. Each year summarizes exactly the points dated in it.
   */
  lemma YearlySummaries(points: seq<Point>, offset: int -> int)
    requires |points| > 0 && AllValid(points)
    ensures Distinct(Periods(YearSummaries(points, offset)))
    ensures forall y :: y in Periods(YearSummaries(points, offset)) <==> y in YearKeys(points, offset)
    ensures AscendingIndices(Periods(YearSummaries(points, offset)))
    ensures OthersInInsertionOrder(Periods(YearSummaries(points, offset)), YearKeys(points, offset))
    ensures SummarizesReference(YearSummaries(points, offset), YearKeys(points, offset), Tvls(points))
  {
    var keys, tvls := YearKeys(points, offset), Tvls(points);
    var g := GroupBy(keys, tvls);
    assert Periods(YearSummaries(points, offset)) == YearEntriesOrder(g.order);
    YearOrder(keys, tvls);
    SummariesMatchReference(keys, tvls, YearEntriesOrder(g.order));
  }

  /** How many points the buckets of `periods` hold together, by the reference definition. */
  ghost function Covered<K(!new)>(keys: seq<K>, tvls: seq<real>, periods: seq<K>): nat
    requires |keys| == |tvls|
  {
    if |periods| == 0 then 0
    else Covered(keys, tvls, periods[..|periods| - 1]) + |Select(keys, tvls, periods[|periods| - 1])|
  }

  lemma {:induction false} SumSizesIsCovered<K(!new)>(keys: seq<K>, tvls: seq<real>, order: seq<K>)
    requires |keys| == |tvls|
    requires forall k :: k in order ==> k in keys
    ensures SumSizes(order, GroupBy(keys, tvls).buckets) == Covered(keys, tvls, order)
  {
    if |order| > 0 {
      var n := |order| - 1;
      assert order[n] in order;
      assert forall k :: k in order[..n] ==> k in order;
      SumSizesIsCovered(keys, tvls, order[..n]);
      GroupByIsSelect(keys, tvls);
    }
  }

  /** The months partition the points: their buckets hold every point once. */
  lemma MonthsPartitionPoints(points: seq<Point>, offset: int -> int)
    requires |points| > 0 && AllValid(points)
    ensures Covered(MonthKeys(points), Tvls(points), Periods(MonthSummaries(points))) == |points|
  {
    var keys, tvls := MonthKeys(points), Tvls(points);
    var g := GroupBy(keys, tvls);
    assert Periods(MonthSummaries(points)) == g.order;
    GroupBySizes(keys, tvls);
    SumSizesIsCovered(keys, tvls, g.order);
  }

  /** Every date lies within the range of valid time values, as `new Date` guarantees. */
  predicate Clipped(points: seq<Point>) {
    forall i :: 0 <= i < |points| && points[i].date.At? ==> -MaxTimeValue <= points[i].date.ms <= MaxTimeValue
  }

  /**
   * On a host whose clock is UTC, months nest in years: the year named by
   * every month key is one of the years listed. West of UTC this fails (see
   * `Calendar.MonthAndYearDisagreeWestOfUtc`).
   */
  lemma UtcHostMonthsWithinYears(points: seq<Point>, offset: int -> int)
    requires |points| > 0
    requires Clipped(points)
    requires forall t :: offset(t) == 0
    requires AllValid(points)
    ensures forall j :: 0 <= j < |Periods(MonthSummaries(points))| ==>
      var k := Periods(MonthSummaries(points))[j];
      |k| == 7 && KeyYear(k) in Periods(YearSummaries(points, offset))
  {
    var months, years, tvls := MonthKeys(points), YearKeys(points, offset), Tvls(points);
    MonthYearsListed(points, offset);
    NestedKeys(months, years, tvls);
  }

  lemma NestedKeys(months: seq<string>, years: seq<int>, tvls: seq<real>)
    requires |months| == |tvls| && |years| == |tvls|
    requires forall k :: k in months ==> |k| == 7 && KeyYear(k) in years
    ensures forall j :: 0 <= j < |GroupBy(months, tvls).order| ==>
      var k := GroupBy(months, tvls).order[j];
      |k| == 7 && KeyYear(k) in YearEntriesOrder(GroupBy(years, tvls).order)
  {
    var m, y := GroupBy(months, tvls), GroupBy(years, tvls);
    forall j | 0 <= j < |m.order|
      ensures |m.order[j]| == 7 && KeyYear(m.order[j]) in YearEntriesOrder(y.order)
    {
      var k := m.order[j];
      assert k in m.buckets;
      assert KeyYear(k) in y.buckets;
    }
  }

  lemma MonthYearsListed(points: seq<Point>, offset: int -> int)
    requires AllValid(points) && Clipped(points)
    requires forall t :: offset(t) == 0
    ensures forall k :: k in MonthKeys(points) ==> |k| == 7 && KeyYear(k) in YearKeys(points, offset)
  {
    var months, years := MonthKeys(points), YearKeys(points, offset);
    forall k | k in months
      ensures |k| == 7 && KeyYear(k) in years
    {
      var i := FirstIndex(months, k);
      var ms := points[i].date.ms;
      YearOfValidTime(ms);
      KeyYearOfMonthKey(UtcMonth(ms));
      LocalYearOnUtcHost(ms, offset);
      assert years[i] in years;
    }
  }
}
