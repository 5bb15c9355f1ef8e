/** The report on the two presets, and the time window in which they can be compared
    (`experiment_report.py`). */
module ComparisonWindow {
  import opened Basics
  import opened Ordering
  import opened ExperimentReport
  import opened TimeBuckets
  import ES = ExperimentStore
  import TR = TerritorialReport
  import Classification

  datatype Window =
    | MissingData(channels: seq<ES.Channel>)
    | NoOverlap
    | Comparable(startUs: int, endUs: int, longFast: Summary, narrowFast: Summary)

  /** The rows of a channel within the bounds the report is asked for. */
  function Asked(channel: ES.Channel, startUs: Option<int>, endUs: Option<int>): Query {
    Query(channel, startUs, endUs, None)
  }

  function Within(channel: ES.Channel, startUs: int, endUs: int): Query {
    Query(channel, Some(startUs), Some(endUs), None)
  }

  /** The rows these queries select: start included, end excluded, and of any emitter. */
  lemma {:induction false} AskedRows(table: seq<Row>, channel: ES.Channel, startUs: Option<int>, endUs: Option<int>,
                                     r: Row)
    ensures r in Selected(table, Asked(channel, startUs, endUs))
       <==> && r in table && r.channel == channel
            && (startUs != None ==> startUs.value <= r.importedAt) && (endUs != None ==> r.importedAt < endUs.value)
  {
  }

  lemma {:induction false} RowsWithin(rows: seq<Row>, channel: ES.Channel, startUs: int, endUs: int, r: Row)
    ensures r in Selected(rows, Within(channel, startUs, endUs))
       <==> r in rows && r.channel == channel && startUs <= r.importedAt < endUs
  {
  }

  // ------------------------------------------------------------ the moments that rows span

  /** There is a row at or before the moment, and one at or after it. */
  ghost predicate Spans(rows: seq<Row>, t: int) {
    && (exists r :: r in rows && r.importedAt <= t)
    && (exists r :: r in rows && t <= r.importedAt)
  }

  lemma SpansIff(rows: seq<Row>, oldest: Option<int>, newest: Option<int>, t: int)
    requires rows != [] && Extreme(rows, oldest, false) && Extreme(rows, newest, true)
    ensures Spans(rows, t) <==> oldest.value <= t <= newest.value
  {
  }

  ghost predicate BothSpan(xs: seq<Row>, ys: seq<Row>, t: int) {
    Spans(xs, t) && Spans(ys, t)
  }

  function Later(a: int, b: int): int {
    if a >= b then a else b
  }

  function Earlier(a: int, b: int): int {
    if a <= b then a else b
  }

  /** Everything `_comparison_window` needs of a summary. */
  ghost predicate Extent(s: Summary, rows: seq<Row>) {
    Extreme(rows, s.oldest, false) && Extreme(rows, s.newest, true)
  }

  lemma BothSpanIff(xs: seq<Row>, ys: seq<Row>, a: Summary, b: Summary)
    requires xs != [] && ys != [] && Extent(a, xs) && Extent(b, ys)
    ensures forall t :: BothSpan(xs, ys, t)
                   <==> Later(a.oldest.value, b.oldest.value) <= t <= Earlier(a.newest.value, b.newest.value)
  {
    forall t
      ensures BothSpan(xs, ys, t)
         <==> Later(a.oldest.value, b.oldest.value) <= t <= Earlier(a.newest.value, b.newest.value)
    {
      SpansIff(xs, a.oldest, a.newest, t);
      SpansIff(ys, b.oldest, b.newest, t);
    }
  }

  // ------------------------------------------------------------ the window

  /** The window is the moments that both channels' observations span; it is missing when a channel has
      no observation. */
  ghost predicate IsWindow(w: Window, xs: seq<Row>, ys: seq<Row>) {
    match w
    case MissingData(channels) => channels == Missing(xs, ys) && channels != []
    case NoOverlap => xs != [] && ys != [] && forall t :: !BothSpan(xs, ys, t)
    case Comparable(startUs, endUs, _, _) =>
      xs != [] && ys != [] && startUs < endUs && forall t :: BothSpan(xs, ys, t) <==> startUs <= t < endUs
  }

  /** The window's summaries are those of the channels' rows that lie in it. */
  ghost predicate WindowSummaries(w: Window, xs: seq<Row>, ys: seq<Row>)
    requires w.Comparable?
  {
    && Summarizes(w.longFast, Selected(xs, Within(ES.LongFast, w.startUs, w.endUs)))
    && Summarizes(w.narrowFast, Selected(ys, Within(ES.NarrowFast, w.startUs, w.endUs)))
  }

  /** A narrower selection selects the same after a wider one. */
  lemma {:induction false} SelectedAgain(table: seq<Row>, wide: Query, narrow: Query)
    requires forall r :: narrow.Wants(r) ==> wide.Wants(r)
    ensures Selected(Selected(table, wide), narrow) == Selected(table, narrow)
  {
    if table != [] {
      var front, last := table[..|table| - 1], table[|table| - 1];
      SelectedAgain(front, wide, narrow);
      if wide.Wants(last) {
        var before := Selected(front, wide);
        assert (before + [last])[..|before|] == before;
      }
    }
  }

  /** A window spanned by rows within the bounds selects within the bounds. */
  lemma {:induction false} WindowWithinBounds(table: seq<Row>, channel: ES.Channel, startUs: Option<int>,
                                              endUs: Option<int>, first: int, last: int)
    requires Spans(Selected(table, Asked(channel, startUs, endUs)), first)
    requires Spans(Selected(table, Asked(channel, startUs, endUs)), last)
    ensures Selected(Selected(table, Asked(channel, startUs, endUs)), Within(channel, first, last + 1))
         == Selected(table, Within(channel, first, last + 1))
  {
    SelectedAgain(table, Asked(channel, startUs, endUs), Within(channel, first, last + 1));
  }

  /** The channels without observations. */
  function Missing(xs: seq<Row>, ys: seq<Row>): seq<ES.Channel> {
    (if xs == [] then [ES.LongFast] else []) + (if ys == [] then [ES.NarrowFast] else [])
  }

  lemma MissingChannels(xs: seq<Row>, ys: seq<Row>)
    ensures ES.LongFast in Missing(xs, ys) <==> xs == []
    ensures ES.NarrowFast in Missing(xs, ys) <==> ys == []
    ensures |Missing(xs, ys)| <= 2 && (|Missing(xs, ys)| == 2 ==> Missing(xs, ys) == [ES.LongFast, ES.NarrowFast])
  {
  }

  /** The extents alone decide the window. */
  method Overlap(ghost xs: seq<Row>, ghost ys: seq<Row>, a: Summary, b: Summary)
    returns (missing: seq<ES.Channel>, first: int, last: int)
    requires Extent(a, xs) && Extent(b, ys)
    ensures missing == Missing(xs, ys)
    ensures missing == [] ==> forall t :: BothSpan(xs, ys, t) <==> first <= t <= last
  {
    missing := [];
    if a.oldest.None? || a.newest.None? {
      missing := missing + [ES.LongFast];
    }
    if b.oldest.None? || b.newest.None? {
      missing := missing + [ES.NarrowFast];
    }
    first, last := 0, 0;
    if missing == [] {
      first := Later(a.oldest.value, b.oldest.value);
      last := Earlier(a.newest.value, b.newest.value);
      BothSpanIff(xs, ys, a, b);
    }
  }

  /** `_comparison_window`, from the summaries of the two channels.  It asks for the rows of the window
      alone, without the bounds the summaries were asked for. */
  method Compare(table: seq<Row>, ghost startUs: Option<int>, ghost endUs: Option<int>, a: Summary, b: Summary)
    returns (w: Window)
    requires Extent(a, Selected(table, Asked(ES.LongFast, startUs, endUs)))
    requires Extent(b, Selected(table, Asked(ES.NarrowFast, startUs, endUs)))
    ensures var xs := Selected(table, Asked(ES.LongFast, startUs, endUs));
            var ys := Selected(table, Asked(ES.NarrowFast, startUs, endUs));
            IsWindow(w, xs, ys) && (w.Comparable? ==> WindowSummaries(w, xs, ys))
  {
    ghost var xs := Selected(table, Asked(ES.LongFast, startUs, endUs));
    ghost var ys := Selected(table, Asked(ES.NarrowFast, startUs, endUs));
    var missing, first, last := Overlap(xs, ys, a, b);
    if missing != [] {
      return MissingData(missing);
    }
    if last < first {
      return NoOverlap;
    }
    w := SummarizeWindow(table, first, last + 1);
    MomentsOf(w, xs, ys, first, last);
    assert BothSpan(xs, ys, first) && BothSpan(xs, ys, last);
    WindowWithinBounds(table, ES.LongFast, startUs, endUs, first, last);
    WindowWithinBounds(table, ES.NarrowFast, startUs, endUs, first, last);
  }

  /** The summaries of the window. */
  method SummarizeWindow(table: seq<Row>, startUs: int, endUs: int) returns (w: Window)
    ensures w.Comparable? && w.startUs == startUs && w.endUs == endUs
    ensures Summarizes(w.longFast, Selected(table, Within(ES.LongFast, startUs, endUs)))
    ensures Summarizes(w.narrowFast, Selected(table, Within(ES.NarrowFast, startUs, endUs)))
  {
    var longFast := ChannelSummary(table, Within(ES.LongFast, startUs, endUs));
    var narrowFast := ChannelSummary(table, Within(ES.NarrowFast, startUs, endUs));
    return Comparable(startUs, endUs, longFast, narrowFast);
  }

  lemma MomentsOf(w: Window, xs: seq<Row>, ys: seq<Row>, first: int, last: int)
    requires w.Comparable? && w.startUs == first <= last && w.endUs == last + 1
    requires xs != [] && ys != [] && forall t :: BothSpan(xs, ys, t) <==> first <= t <= last
    ensures IsWindow(w, xs, ys)
  {
    forall t ensures BothSpan(xs, ys, t) <==> w.startUs <= t < w.endUs {
    }
  }

  // ------------------------------------------------------------ the report

  datatype ChannelReport = ChannelReport(summary: Summary, series: seq<TimeBucket>)

  /** The territorial part, one report for each channel. */
  datatype TerritorialPart = TerritorialPart(longFast: TR.Report, narrowFast: TR.Report)

  datatype Report = Report(longFast: ChannelReport, narrowFast: ChannelReport, comparison: Window,
                           territories: Option<TerritorialPart>)

  datatype ReportError = Refused(problem: Problem) | Unplaceable(why: Classification.Problem)

  /** The summary and the series tell of the same rows, and the series adds up to the summary. */
  ghost predicate Reports(c: ChannelReport, rows: seq<Row>, bucketUs: int)
    requires bucketUs > 0
  {
    var at := BucketAt(bucketUs);
    && Summarizes(c.summary, rows)
    && c.series == BucketsOf(rows, Ordered(Starts(rows, at)), at, bucketUs)
    && CountersIn(c.series) == c.summary.counters
  }

  /** One turn of the loop over the channels. */
  method ReportChannel(table: seq<Row>, channel: ES.Channel, startUs: Option<int>, endUs: Option<int>,
                       bucketSeconds: int)
    returns (r: Result<ChannelReport, Problem>)
    requires Sorted(table, RowLe)
    ensures if InvalidBounds(startUs, endUs) then r == Err(InvalidRange)
            else if bucketSeconds <= 0 then r == Err(InvalidBucketSize)
            else r.Ok? && Reports(r.value, Selected(table, Asked(channel, startUs, endUs)), bucketSeconds * 1000000)
  {
    var summary := ChannelSummary(table, Asked(channel, startUs, endUs));
    var series := ExperimentTimeBuckets(table, channel, startUs, endUs, bucketSeconds);
    if series.Err? {
      return Err(series.error);
    }
    BucketsReproduceSummary(table, Asked(channel, startUs, endUs), bucketSeconds * 1000000, summary);
    return Ok(ChannelReport(summary, series.value));
  }

  /** Every emitter of the channel can be classified. */
  ghost predicate AllPlaceable(table: seq<Row>, q: Query, atlas: TR.Atlas) {
    forall e :: e in Emitters(Selected(table, q)) ==> TR.PlaceOf(atlas, e).Ok?
  }

  /** `build_experiment_territories` */
  method ReportTerritories(table: seq<Row>, startUs: Option<int>, endUs: Option<int>, atlas: TR.Atlas)
    returns (r: Result<TerritorialPart, Classification.Problem>)
    requires atlas.Valid()
    ensures var longFast, narrowFast := Asked(ES.LongFast, startUs, endUs), Asked(ES.NarrowFast, startUs, endUs);
            && (r.Ok? <==> AllPlaceable(table, longFast, atlas) && AllPlaceable(table, narrowFast, atlas))
            && (r.Ok? ==> && TR.ReportsAll(r.value.longFast, table, longFast, atlas)
                          && TR.ReportsAll(r.value.narrowFast, table, narrowFast, atlas))
  {
    var longFast := TR.BuildReport(table, Asked(ES.LongFast, startUs, endUs), atlas);
    if longFast.Err? {
      return Err(longFast.error);
    }
    var narrowFast := TR.BuildReport(table, Asked(ES.NarrowFast, startUs, endUs), atlas);
    if narrowFast.Err? {
      return Err(narrowFast.error);
    }
    return Ok(TerritorialPart(longFast.value, narrowFast.value));
  }

  /** The territorial part covers the channels as the summaries do, packet for packet. */
  ghost predicate Covers(r: Report, table: seq<Row>, longFast: Query, narrowFast: Query, atlas: TR.Atlas)
    requires r.territories.Some?
  {
    var t := r.territories.value;
    && TR.ReportsAll(t.longFast, table, longFast, atlas) && TR.ReportsAll(t.narrowFast, table, narrowFast, atlas)
    && t.longFast.packets == r.longFast.summary.counters.packets
    && t.narrowFast.packets == r.narrowFast.summary.counters.packets
  }

  /** What the report says of the rows within the bounds. */
  ghost predicate Tells(r: Report, table: seq<Row>, longFast: Query, narrowFast: Query, bucketUs: int)
    requires bucketUs > 0
  {
    var xs, ys := Selected(table, longFast), Selected(table, narrowFast);
    && Reports(r.longFast, xs, bucketUs) && Reports(r.narrowFast, ys, bucketUs)
    && IsWindow(r.comparison, xs, ys)
    && (r.comparison.Comparable? ==> WindowSummaries(r.comparison, xs, ys))
  }

  /** `build_experiment_report`, over the table in the order of its queries; the territorial part if the
      nodes and the territories are given. */
  method BuildExperimentReport(table: seq<Row>, startUs: Option<int>, endUs: Option<int>, bucketSeconds: int,
                               atlas: Option<TR.Atlas>)
    returns (r: Result<Report, ReportError>)
    requires Sorted(table, RowLe)
    requires atlas.Some? ==> atlas.value.Valid()
    ensures var longFast, narrowFast := Asked(ES.LongFast, startUs, endUs), Asked(ES.NarrowFast, startUs, endUs);
            if InvalidBounds(startUs, endUs) then r == Err(Refused(InvalidRange))
            else if bucketSeconds <= 0 then r == Err(Refused(InvalidBucketSize))
            else && (r.Ok? <==> && (atlas.Some? ==> AllPlaceable(table, longFast, atlas.value))
                                && (atlas.Some? ==> AllPlaceable(table, narrowFast, atlas.value)))
                 && (r.Ok? ==> && Tells(r.value, table, longFast, narrowFast, bucketSeconds * 1000000)
                               && (r.value.territories.Some? <==> atlas.Some?)
                               && (atlas.Some? ==> Covers(r.value, table, longFast, narrowFast, atlas.value)))
  {
    if startUs.Some? && endUs.Some? && endUs.value <= startUs.value {
      return Err(Refused(InvalidRange));
    }
    var longFast := ReportChannel(table, ES.LongFast, startUs, endUs, bucketSeconds);
    if longFast.Err? {
      return Err(Refused(longFast.error));
    }
    // What is refused does not depend on the channel.
    var narrowFast := ReportChannel(table, ES.NarrowFast, startUs, endUs, bucketSeconds);
    var territories: Option<TerritorialPart> := None;
    if atlas.Some? {
      var placed := ReportTerritories(table, startUs, endUs, atlas.value);
      if placed.Err? {
        return Err(Unplaceable(placed.error));
      }
      territories := Some(placed.value);
      TallyCounts(Selected(table, Asked(ES.LongFast, startUs, endUs)));
      TallyCounts(Selected(table, Asked(ES.NarrowFast, startUs, endUs)));
    }
    var comparison := Compare(table, startUs, endUs, longFast.value.summary, narrowFast.value.summary);
    return Ok(Report(longFast.value, narrowFast.value, comparison, territories));
  }

  /** Each end of a window is the moment of one of the observations it compares, so at least one of its
      two summaries counts a packet. */
  lemma {:induction false} WindowCountsItsEnds(w: Window, table: seq<Row>, startUs: Option<int>, endUs: Option<int>)
    requires IsWindow(w, Selected(table, Asked(ES.LongFast, startUs, endUs)),
                      Selected(table, Asked(ES.NarrowFast, startUs, endUs)))
    requires w.Comparable?
    ensures exists c, r :: r in Selected(table, Within(c, w.startUs, w.endUs)) && r.importedAt == w.startUs
    ensures exists c, r :: r in Selected(table, Within(c, w.startUs, w.endUs)) && r.importedAt == w.endUs - 1
  {
    var xs := Selected(table, Asked(ES.LongFast, startUs, endUs));
    var ys := Selected(table, Asked(ES.NarrowFast, startUs, endUs));
    assert BothSpan(xs, ys, w.startUs) && !BothSpan(xs, ys, w.startUs - 1);
    assert BothSpan(xs, ys, w.endUs - 1) && !BothSpan(xs, ys, w.endUs);
    var r := FirstAt(xs, ys, w.startUs);
    var s := LastAt(xs, ys, w.endUs - 1);
    assert r in Selected(table, Within(r.channel, w.startUs, w.endUs));
    assert s in Selected(table, Within(s.channel, w.startUs, w.endUs));
  }

  lemma FirstAt(xs: seq<Row>, ys: seq<Row>, t: int) returns (r: Row)
    requires BothSpan(xs, ys, t) && !BothSpan(xs, ys, t - 1)
    ensures (r in xs || r in ys) && r.importedAt == t
  {
    var rows := if Spans(xs, t - 1) then ys else xs;
    assert Spans(rows, t) && !Spans(rows, t - 1);
    r :| r in rows && r.importedAt <= t;
    var later :| later in rows && t <= later.importedAt;
    assert r.importedAt <= t - 1 ==> Spans(rows, t - 1);
  }

  lemma LastAt(xs: seq<Row>, ys: seq<Row>, t: int) returns (r: Row)
    requires BothSpan(xs, ys, t) && !BothSpan(xs, ys, t + 1)
    ensures (r in xs || r in ys) && r.importedAt == t
  {
    var rows := if Spans(xs, t + 1) then ys else xs;
    assert Spans(rows, t) && !Spans(rows, t + 1);
    r :| r in rows && t <= r.importedAt;
    var earlier :| earlier in rows && earlier.importedAt <= t;
    assert r.importedAt >= t + 1 ==> Spans(rows, t + 1);
  }
}
