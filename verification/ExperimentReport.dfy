/** The channel summaries of the radio experiment (`experiment_report.py`). */
module ExperimentReport {
  import opened Basics
  import opened Ordering
  import opened Statistics
  import opened Texts
  import ES = ExperimentStore

  type Row = ES.Row

  // ------------------------------------------------------------ queries

  /** ORDER BY imported_at_us, event_id */
  predicate RowLe(a: Row, b: Row) {
    a.importedAt < b.importedAt || (a.importedAt == b.importedAt && LexLe(a.eventId, b.eventId))
  }

  /** The ids a query is limited to, as it normalizes them. */
  function Normalized(ids: set<string>): set<string> {
    set id | id in ids && Strip(id) != "" :: Strip(id)
  }

  datatype Query = Query(channel: ES.Channel, startUs: Option<int>, endUs: Option<int>, ids: Option<set<string>>) {
    predicate Wants(r: Row) {
      && r.channel == channel
      && (startUs.Some? ==> r.importedAt >= startUs.value)
      && (endUs.Some? ==> r.importedAt < endUs.value)
      && (ids.Some? ==> r.fromId in Normalized(ids.value))
    }
  }

  /** `_channel_rows`, over the table in the order of the query. */
  function Selected(rows: seq<Row>, q: Query): (r: seq<Row>)
    ensures forall x :: x in r <==> x in rows && q.Wants(x)
  {
    if rows == [] then []
    else
      var front, last := Selected(rows[..|rows| - 1], q), rows[|rows| - 1];
      assert rows == rows[..|rows| - 1] + [last];
      if q.Wants(last) then front + [last] else front
  }

  lemma {:induction false} SelectedStaysSorted(rows: seq<Row>, q: Query)
    requires Sorted(rows, RowLe)
    ensures Sorted(Selected(rows, q), RowLe)
  {
    if rows != [] {
      var front, last := rows[..|rows| - 1], rows[|rows| - 1];
      SelectedStaysSorted(front, q);
      forall x | x in Selected(front, q) ensures RowLe(x, last) {
        var i :| 0 <= i < |front| && front[i] == x;
        assert RowLe(rows[i], rows[|rows| - 1]);
      }
    }
  }

  /** Rows are listed by time of import, and at one time by the text of their ids. */
  lemma ListedInOrder(rows: seq<Row>)
    ensures Sorted(rows, RowLe)
       <==> forall i, j :: 0 <= i < j < |rows| ==>
              && rows[i].importedAt <= rows[j].importedAt
              && (rows[i].importedAt == rows[j].importedAt ==> !LexLess(rows[j].eventId, rows[i].eventId))
  {
    forall i, j | 0 <= i < j < |rows|
      ensures RowLe(rows[i], rows[j])
         <==> && rows[i].importedAt <= rows[j].importedAt
              && (rows[i].importedAt == rows[j].importedAt ==> !LexLess(rows[j].eventId, rows[i].eventId))
    {
      LexTrichotomy(rows[i].eventId, rows[j].eventId);
    }
  }

  // ------------------------------------------------------------ what a row adds to a summary

  function WithRf(r: Row): nat {
    if r.snrs != [] || r.rssis != [] then 1 else 0
  }

  function RfSamples(r: Row): nat {
    if |r.snrs| >= |r.rssis| then |r.snrs| else |r.rssis|
  }

  function MultiGateway(r: Row): nat {
    if r.gatewayCount > 1 then 1 else 0
  }

  function MultiStage(r: Row): nat {
    if r.stageCount > 1 then 1 else 0
  }

  function RouteDiscovery(r: Row): nat {
    if r.routeDiscovery then 1 else 0
  }

  function Telemetry(r: Row): nat {
    if r.channelUtilization.Some? || r.airUtilTx.Some? then 1 else 0
  }

  function Present(x: Option<real>): seq<real> {
    if x.Some? then [x.value] else []
  }

  /** The counts that add up over disjoint sets of rows. */
  datatype Counters = Counters(packets: nat, withRf: nat, rfSamples: nat, multiGateway: nat, multiStage: nat,
                               routeDiscovery: nat, telemetry: nat) {
    function Plus(o: Counters): Counters {
      Counters(packets + o.packets, withRf + o.withRf, rfSamples + o.rfSamples, multiGateway + o.multiGateway,
               multiStage + o.multiStage, routeDiscovery + o.routeDiscovery, telemetry + o.telemetry)
    }
  }

  const NOTHING := Counters(0, 0, 0, 0, 0, 0, 0)

  function Adds(r: Row): Counters {
    Counters(1, WithRf(r), RfSamples(r), MultiGateway(r), MultiStage(r), RouteDiscovery(r), Telemetry(r))
  }

  function Tally(rows: seq<Row>): Counters {
    if rows == [] then NOTHING else Tally(rows[..|rows| - 1]).Plus(Adds(rows[|rows| - 1]))
  }

  /** The values a summary collects, in the order of the rows. */
  datatype Samples = Samples(snrs: seq<real>, rssis: seq<real>, gateways: seq<real>, stages: seq<real>,
                             utilization: seq<real>, airTx: seq<real>) {
    function Plus(o: Samples): Samples {
      Samples(snrs + o.snrs, rssis + o.rssis, gateways + o.gateways, stages + o.stages,
              utilization + o.utilization, airTx + o.airTx)
    }
  }

  const NO_SAMPLES := Samples([], [], [], [], [], [])

  function Gives(r: Row): Samples {
    Samples(r.snrs, r.rssis, [r.gatewayCount as real], [r.stageCount as real],
            Present(r.channelUtilization), Present(r.airUtilTx))
  }

  function Collected(rows: seq<Row>): Samples {
    if rows == [] then NO_SAMPLES else Collected(rows[..|rows| - 1]).Plus(Gives(rows[|rows| - 1]))
  }

  function Emitters(rows: seq<Row>): set<string> {
    set r | r in rows :: r.fromId
  }

  // ------------------------------------------------------------ a summary

  datatype Spread = Spread(samples: nat, mean: Option<real>, median: Option<real>, p10: Option<real>, p90: Option<real>)

  function SpreadOf(values: seq<real>): Spread {
    Spread(|values|, Mean(values), Median(values), ReportPercentile(values, 0.10).value,
           ReportPercentile(values, 0.90).value)
  }

  datatype Summary = Summary(counters: Counters, nodes: nat, oldest: Option<int>, newest: Option<int>,
                             snr: Spread, rssi: Spread, gatewayMean: Option<real>, gatewayMedian: Option<real>,
                             stageMean: Option<real>, stageMedian: Option<real>, utilization: Spread, airTx: Spread)

  /** The moment is that of some row, and no row is on its other side. */
  predicate Extreme(rows: seq<Row>, at: Option<int>, latest: bool) {
    && (at.None? <==> rows == [])
    && (at.Some? ==> && (exists r :: r in rows && r.importedAt == at.value)
                     && forall r :: r in rows ==> if latest then r.importedAt <= at.value else at.value <= r.importedAt)
  }

  /** The summary tells what these rows hold. */
  predicate Summarizes(s: Summary, rows: seq<Row>) {
    var c := Collected(rows);
    && s.counters == Tally(rows)
    && s.nodes == |Emitters(rows)|
    && Extreme(rows, s.oldest, false) && Extreme(rows, s.newest, true)
    && s.snr == SpreadOf(c.snrs) && s.rssi == SpreadOf(c.rssis)
    && s.gatewayMean == Mean(c.gateways) && s.gatewayMedian == Median(c.gateways)
    && s.stageMean == Mean(c.stages) && s.stageMedian == Median(c.stages)
    && s.utilization == SpreadOf(c.utilization) && s.airTx == SpreadOf(c.airTx)
  }

  /** `channel_summary` */
  method ChannelSummary(table: seq<Row>, q: Query) returns (s: Summary)
    ensures Summarizes(s, Selected(table, q))
  {
    var rows := Selected(table, q);
    var nodes, counters, samples := {}, NOTHING, NO_SAMPLES;
    var oldest, newest: Option<int> := None, None;
    for i := 0 to |rows|
      invariant nodes == Emitters(rows[..i])
      invariant counters == Tally(rows[..i]) && samples == Collected(rows[..i])
      invariant Extreme(rows[..i], oldest, false) && Extreme(rows[..i], newest, true)
    {
      var row := rows[i];
      OneMoreRow(rows, i);
      ExtremeStep(rows[..i], row, oldest, false);
      ExtremeStep(rows[..i], row, newest, true);
      nodes := nodes + {row.fromId};
      oldest := Further(oldest, row.importedAt, false);
      newest := Further(newest, row.importedAt, true);
      counters := counters.Plus(Adds(row));
      samples := samples.Plus(Gives(row));
    }
    assert rows[..|rows|] == rows;
    return Summary(counters, |nodes|, oldest, newest, SpreadOf(samples.snrs), SpreadOf(samples.rssis),
                   Mean(samples.gateways), Median(samples.gateways), Mean(samples.stages), Median(samples.stages),
                   SpreadOf(samples.utilization), SpreadOf(samples.airTx));
  }

  /** min and max, starting from nothing */
  function Further(at: Option<int>, moment: int, latest: bool): Option<int> {
    if at.None? then Some(moment)
    else if latest then Some(if moment > at.value then moment else at.value)
    else Some(if moment < at.value then moment else at.value)
  }

  lemma ExtremeStep(rows: seq<Row>, row: Row, at: Option<int>, latest: bool)
    requires Extreme(rows, at, latest)
    ensures Extreme(rows + [row], Further(at, row.importedAt, latest), latest)
  {
    var more, after := rows + [row], Further(at, row.importedAt, latest);
    assert row in more;
    if at.Some? && after == at {
      var r :| r in rows && r.importedAt == at.value;
      assert r in more;
    }
    forall r | r in more ensures if latest then r.importedAt <= after.value else after.value <= r.importedAt {
      assert r in rows || r == row;
    }
  }

  lemma OneMoreRow(rows: seq<Row>, i: nat)
    requires i < |rows|
    ensures rows[..i + 1] == rows[..i] + [rows[i]]
    ensures Emitters(rows[..i + 1]) == Emitters(rows[..i]) + {rows[i].fromId}
    ensures Tally(rows[..i + 1]) == Tally(rows[..i]).Plus(Adds(rows[i]))
    ensures Collected(rows[..i + 1]) == Collected(rows[..i]).Plus(Gives(rows[i]))
  {
    assert rows[..i + 1] == rows[..i] + [rows[i]];
    assert rows[..i + 1][..i] == rows[..i];
    forall id ensures id in Emitters(rows[..i + 1]) <==> id in Emitters(rows[..i]) || id == rows[i].fromId {
      if id in Emitters(rows[..i]) {
        var r :| r in rows[..i] && r.fromId == id;
        assert r in rows[..i + 1];
      }
      if id == rows[i].fromId {
        assert rows[i] in rows[..i + 1];
      }
    }
  }

  // ------------------------------------------------------------ what a summary means

  /** How many rows have the property. */
  function CountOf(rows: seq<Row>, p: Row -> bool): nat {
    if rows == [] then 0 else CountOf(rows[..|rows| - 1], p) + if p(rows[|rows| - 1]) then 1 else 0
  }

  function IndexesOf(rows: seq<Row>, p: Row -> bool): set<nat> {
    set i: nat | i < |rows| && p(rows[i])
  }

  /** Every row of the property is counted, and no other. */
  lemma {:induction false} CountIsOfIndexes(rows: seq<Row>, p: Row -> bool)
    ensures CountOf(rows, p) == |IndexesOf(rows, p)|
  {
    if rows == [] {
      assert IndexesOf(rows, p) == {};
    } else {
      var n: nat := |rows| - 1;
      CountIsOfIndexes(rows[..n], p);
      assert IndexesOf(rows, p) == IndexesOf(rows[..n], p) + if p(rows[n]) then {n} else {};
    }
  }

  /** The lists that the rows give, one after another. */
  function ListOf(rows: seq<Row>, f: Row -> seq<real>): seq<real> {
    if rows == [] then [] else ListOf(rows[..|rows| - 1], f) + f(rows[|rows| - 1])
  }

  function SumOf(rows: seq<Row>, f: Row -> nat): nat {
    if rows == [] then 0 else SumOf(rows[..|rows| - 1], f) + f(rows[|rows| - 1])
  }

  /** Each counter counts the rows, or sums the samples, that its name says. */
  lemma {:induction false} CountersCount(rows: seq<Row>)
    ensures var c := Tally(rows);
            && c.packets == |rows|
            && c.withRf == CountOf(rows, (r: Row) => |r.snrs| > 0 || |r.rssis| > 0)
            && c.rfSamples == SumOf(rows, (r: Row) => if |r.snrs| < |r.rssis| then |r.rssis| else |r.snrs|)
            && c.multiGateway == CountOf(rows, (r: Row) => r.gatewayCount >= 2)
            && c.multiStage == CountOf(rows, (r: Row) => r.stageCount >= 2)
            && c.routeDiscovery == CountOf(rows, (r: Row) => r.routeDiscovery)
            && c.telemetry == CountOf(rows, (r: Row) => !(r.channelUtilization == None && r.airUtilTx == None))
  {
    if rows != [] {
      CountersCount(rows[..|rows| - 1]);
    }
  }

  /** Each list of samples holds what its name says, in the order of the rows. */
  lemma {:induction false} SamplesCollect(rows: seq<Row>)
    ensures var c := Collected(rows);
            && c.snrs == ListOf(rows, (r: Row) => r.snrs)
            && c.rssis == ListOf(rows, (r: Row) => r.rssis)
            && c.gateways == ListOf(rows, (r: Row) => [r.gatewayCount as real])
            && c.stages == ListOf(rows, (r: Row) => [r.stageCount as real])
            && c.utilization
            == ListOf(rows, (r: Row) => if r.channelUtilization == None then [] else [r.channelUtilization.value])
            && c.airTx == ListOf(rows, (r: Row) => if r.airUtilTx == None then [] else [r.airUtilTx.value])
  {
    if rows != [] {
      SamplesCollect(rows[..|rows| - 1]);
    }
  }

  /** The spread of a list of values: how many, their mean, and three percentiles in order and within the values;
      of 10k + 1 values in ascending order the tenth percentile is the one at k, the ninetieth the one at 9k. */
  ghost predicate TellsSpread(sp: Spread, values: seq<real>) {
    && sp.samples == |values|
    && IsMean(sp.mean, values) && IsMiddle(sp.median, values)
    && InOrder(sp.p10, sp.median, sp.p90, values)
    && TellsTenths(sp.p10, sp.p90, values)
  }

  /** The mean times the number of values is their total. */
  predicate IsMean(mean: Option<real>, values: seq<real>) {
    if values == [] then mean == None else mean.Some? && |values| as real * mean.value == Total(values)
  }

  ghost predicate IsMiddle(median: Option<real>, values: seq<real>) {
    && (forall s, k: nat :: Arranges(s, values) && |s| == 2 * k + 1 ==> median == Some(s[k]))
    && (forall s, k: nat :: Arranges(s, values) && |s| == 2 * k + 2 ==> median == Some((s[k] + s[k + 1]) / 2.0))
  }

  ghost predicate InOrder(p10: Option<real>, median: Option<real>, p90: Option<real>, values: seq<real>) {
    if values == [] then p10 == median == p90 == None
    else && p10.Some? && median.Some? && p90.Some?
         && p10.value <= median.value <= p90.value
         && WithinValues(p10.value, values) && WithinValues(p90.value, values)
  }

  ghost predicate TellsTenths(p10: Option<real>, p90: Option<real>, values: seq<real>) {
    forall s, k: nat :: Arranges(s, values) && |s| == 10 * k + 1 ==> p10 == Some(s[k]) && p90 == Some(s[9 * k])
  }

  ghost predicate WithinValues(x: real, values: seq<real>) {
    exists least, greatest :: least in values && greatest in values && least <= x <= greatest
  }

  lemma MeanTold(values: seq<real>)
    ensures IsMean(Mean(values), values)
  {
    if values != [] {
      TimesMean(values);
    }
  }

  lemma PercentileTold(values: seq<real>, fraction: real)
    requires values != [] && 0.0 <= fraction <= 1.0
    ensures ReportPercentile(values, fraction).Ok? && ReportPercentile(values, fraction).value.Some?
    ensures WithinValues(ReportPercentile(values, fraction).value.value, values)
  {
    PercentileAscends(values, fraction, fraction);
  }

  lemma OrderTold(values: seq<real>)
    ensures ReportPercentile(values, 0.10).Ok? && ReportPercentile(values, 0.90).Ok?
    ensures InOrder(ReportPercentile(values, 0.10).value, Median(values), ReportPercentile(values, 0.90).value, values)
  {
    if values != [] {
      HalfIsMedian(values);
      PercentileAscends(values, 0.10, 0.50);
      PercentileAscends(values, 0.50, 0.90);
      PercentileTold(values, 0.10);
      PercentileTold(values, 0.90);
    }
  }

  lemma TenthsTold(values: seq<real>)
    ensures ReportPercentile(values, 0.10).Ok? && ReportPercentile(values, 0.90).Ok?
    ensures TellsTenths(ReportPercentile(values, 0.10).value, ReportPercentile(values, 0.90).value, values)
  {
    OrderTold(values);
    forall s, k: nat | Arranges(s, values) && |s| == 10 * k + 1
      ensures ReportPercentile(values, 0.10).value == Some(s[k])
      ensures ReportPercentile(values, 0.90).value == Some(s[9 * k])
    {
      PercentileInterpolates(s, values, 0.10, k, 0.0);
      PercentileInterpolates(s, values, 0.90, 9 * k, 0.0);
    }
  }

  lemma MiddleTold(values: seq<real>)
    ensures IsMiddle(Median(values), values)
  {
    forall s, k: nat | Arranges(s, values) && |s| == 2 * k + 1 ensures Median(values) == Some(s[k]) {
      MedianIsMiddle(s, values, k);
    }
    forall s, k: nat | Arranges(s, values) && |s| == 2 * k + 2 ensures Median(values) == Some((s[k] + s[k + 1]) / 2.0) {
      MedianIsMiddle(s, values, k + 1);
    }
  }

  lemma SpreadTells(values: seq<real>)
    ensures TellsSpread(SpreadOf(values), values)
  {
    MeanTold(values);
    MiddleTold(values);
    OrderTold(values);
    TenthsTold(values);
  }

  /** The first and the last moment of the rows. */
  ghost predicate SpansTimes(oldest: Option<int>, newest: Option<int>, rows: seq<Row>) {
    if rows == [] then oldest == newest == None
    else && (exists r :: r in rows && oldest == Some(r.importedAt))
         && (exists r :: r in rows && newest == Some(r.importedAt))
         && forall r :: r in rows ==> oldest.value <= r.importedAt <= newest.value
  }

  lemma TimesSpan(oldest: Option<int>, newest: Option<int>, rows: seq<Row>)
    requires Extreme(rows, oldest, false) && Extreme(rows, newest, true)
    ensures SpansTimes(oldest, newest, rows)
  {
  }

  /** What a summary says of its rows, in plain terms. */
  ghost predicate Tells(s: Summary, rows: seq<Row>) {
    && s.nodes == |set r | r in rows :: r.fromId|
    && SpansTimes(s.oldest, s.newest, rows)
    && TellsSpread(s.snr, ListOf(rows, (r: Row) => r.snrs))
    && TellsSpread(s.rssi, ListOf(rows, (r: Row) => r.rssis))
    && TellsSpread(s.utilization,
                   ListOf(rows, (r: Row) => if r.channelUtilization == None then [] else [r.channelUtilization.value]))
    && TellsSpread(s.airTx, ListOf(rows, (r: Row) => if r.airUtilTx == None then [] else [r.airUtilTx.value]))
    && s.gatewayMean == Mean(ListOf(rows, (r: Row) => [r.gatewayCount as real]))
    && s.gatewayMedian == Median(ListOf(rows, (r: Row) => [r.gatewayCount as real]))
    && s.stageMean == Mean(ListOf(rows, (r: Row) => [r.stageCount as real]))
    && s.stageMedian == Median(ListOf(rows, (r: Row) => [r.stageCount as real]))
  }

  lemma SummaryTells(s: Summary, rows: seq<Row>)
    requires Summarizes(s, rows)
    ensures Tells(s, rows)
  {
    TimesSpan(s.oldest, s.newest, rows);
    SamplesCollect(rows);
    var c := Collected(rows);
    SpreadTells(c.snrs);
    SpreadTells(c.rssis);
    SpreadTells(c.utilization);
    SpreadTells(c.airTx);
  }

  /** Which rows a query selects: those of the channel within the bounds, the start included and the end not,
      and of the ids asked for, read without the blanks around them. */
  lemma {:induction false} SelectedRows(table: seq<Row>, q: Query, r: Row)
    ensures r in Selected(table, q)
       <==> && r in table && r.channel == q.channel
            && (q.startUs != None ==> q.startUs.value <= r.importedAt)
            && (q.endUs != None ==> r.importedAt < q.endUs.value)
            && (q.ids != None ==> exists id :: id in q.ids.value && Strip(id) != "" && Strip(id) == r.fromId)
  {
  }

  // ------------------------------------------------------------ joining lists of rows

  lemma {:induction false} LastRow(rows: seq<Row>, r: Row)
    ensures Tally(rows + [r]) == Tally(rows).Plus(Adds(r))
    ensures Collected(rows + [r]) == Collected(rows).Plus(Gives(r))
  {
    assert (rows + [r])[..|rows|] == rows;
  }

  lemma {:induction false} TallyJoin(xs: seq<Row>, ys: seq<Row>)
    ensures Tally(xs + ys) == Tally(xs).Plus(Tally(ys))
  {
    if ys == [] {
      assert xs + ys == xs;
    } else {
      var front, last := ys[..|ys| - 1], ys[|ys| - 1];
      assert xs + ys == (xs + front) + [last] && ys == front + [last];
      TallyJoin(xs, front);
      LastRow(xs + front, last);
      LastRow(front, last);
    }
  }

  lemma {:induction false} CollectedJoin(xs: seq<Row>, ys: seq<Row>)
    ensures Collected(xs + ys) == Collected(xs).Plus(Collected(ys))
  {
    if ys == [] {
      assert xs + ys == xs;
    } else {
      var front, last := ys[..|ys| - 1], ys[|ys| - 1];
      assert xs + ys == (xs + front) + [last] && ys == front + [last];
      CollectedJoin(xs, front);
      LastRow(xs + front, last);
      LastRow(front, last);
      PlusIsAssociative(Collected(xs), Collected(front), Gives(last));
    }
  }

  lemma PlusIsAssociative(a: Samples, b: Samples, c: Samples)
    ensures a.Plus(b).Plus(c) == a.Plus(b.Plus(c))
  {
    assert a.snrs + b.snrs + c.snrs == a.snrs + (b.snrs + c.snrs);
    assert a.rssis + b.rssis + c.rssis == a.rssis + (b.rssis + c.rssis);
    assert a.gateways + b.gateways + c.gateways == a.gateways + (b.gateways + c.gateways);
    assert a.stages + b.stages + c.stages == a.stages + (b.stages + c.stages);
    assert a.utilization + b.utilization + c.utilization == a.utilization + (b.utilization + c.utilization);
    assert a.airTx + b.airTx + c.airTx == a.airTx + (b.airTx + c.airTx);
  }

  lemma {:induction false} TotalJoin(xs: seq<real>, ys: seq<real>)
    ensures Total(xs + ys) == Total(xs) + Total(ys)
  {
    if ys == [] {
      assert xs + ys == xs;
    } else {
      assert (xs + ys)[..|xs + ys| - 1] == xs + ys[..|ys| - 1];
      TotalJoin(xs, ys[..|ys| - 1]);
    }
  }

  lemma {:induction false} TallyCounts(rows: seq<Row>)
    ensures Tally(rows).packets == |rows| == |Collected(rows).gateways|
  {
    if rows != [] {
      TallyCounts(rows[..|rows| - 1]);
    }
  }
}
