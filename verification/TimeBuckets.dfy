/** Grouping the experiment's observations by time (`experiment_analysis.py`). */
module TimeBuckets {
  import opened Basics
  import opened Ordering
  import opened Statistics
  import opened ExperimentReport
  import ES = ExperimentStore

  datatype Problem = InvalidRange | InvalidBucketSize

  /** `_bucket_start` */
  function BucketStart(timestampUs: int, bucketUs: int): int
    requires bucketUs > 0
  {
    timestampUs / bucketUs * bucketUs
  }

  /** The start of the one bucket that holds the moment. */
  lemma InItsBucket(timestampUs: int, bucketUs: int, k: int)
    requires bucketUs > 0
    ensures k * bucketUs == BucketStart(timestampUs, bucketUs)
       <==> k * bucketUs <= timestampUs < k * bucketUs + bucketUs
  {
    var q, rest := timestampUs / bucketUs, timestampUs % bucketUs;
    assert timestampUs == q * bucketUs + rest;
    if k * bucketUs <= timestampUs < k * bucketUs + bucketUs {
      assert (k - q) * bucketUs == k * bucketUs - q * bucketUs;
      Multiples(k - q, bucketUs);
    }
  }

  lemma IntegerProduct(a: int, b: int)
    requires a >= 0 && b >= 0
    ensures a * b >= 0
  {
  }

  lemma Multiples(d: int, n: int)
    requires n > 0
    ensures d >= 1 ==> d * n >= n
    ensures d <= -1 ==> d * n <= -n
  {
    if d >= 1 {
      IntegerProduct(d - 1, n);
      assert (d - 1) * n == d * n - n;
    } else if d <= -1 {
      IntegerProduct(-d - 1, n);
      assert (-d - 1) * n == -(d * n) - n;
    }
  }

  /** Later moments are in the same bucket or a later one. */
  lemma BucketsFollowTime(s: int, t: int, bucketUs: int)
    requires bucketUs > 0 && s <= t
    ensures BucketStart(s, bucketUs) <= BucketStart(t, bucketUs)
  {
    var j, k := s / bucketUs, t / bucketUs;
    assert s == j * bucketUs + s % bucketUs && t == k * bucketUs + t % bucketUs;
    assert (k - j) * bucketUs == k * bucketUs - j * bucketUs;
    Multiples(k - j, bucketUs);
  }

  /** The bucket of a moment, as a function. */
  function BucketAt(bucketUs: int): int -> int
    requires bucketUs > 0
  {
    (t: int) => BucketStart(t, bucketUs)
  }

  /** Later moments are never put in an earlier bucket. */
  ghost predicate FollowsTime(at: int -> int) {
    forall s, t :: s <= t ==> at(s) <= at(t)
  }

  lemma BucketAtFollowsTime(bucketUs: int)
    requires bucketUs > 0
    ensures FollowsTime(BucketAt(bucketUs))
  {
    forall s, t | s <= t ensures BucketAt(bucketUs)(s) <= BucketAt(bucketUs)(t) {
      BucketsFollowTime(s, t, bucketUs);
    }
  }

  // ------------------------------------------------------------ groups

  function Group(rows: seq<Row>, start: int, at: int -> int): (r: seq<Row>)
    ensures forall x :: x in r <==> x in rows && at(x.importedAt) == start
  {
    if rows == [] then []
    else
      var front, last := Group(rows[..|rows| - 1], start, at), rows[|rows| - 1];
      assert rows == rows[..|rows| - 1] + [last];
      if at(last.importedAt) == start then front + [last] else front
  }

  function Starts(rows: seq<Row>, at: int -> int): set<int> {
    set r | r in rows :: at(r.importedAt)
  }

  datatype TimeBucket = TimeBucket(startUs: int, endUs: int, counters: Counters, nodes: nat,
                                   snrMean: Option<real>, snrMedian: Option<real>, rssiMean: Option<real>,
                                   rssiMedian: Option<real>, gatewayMean: Option<real>,
                                   utilizationMean: Option<real>, airTxMean: Option<real>)

  /** The bucket that summarizes some rows. */
  function BucketOf(rows: seq<Row>, start: int, bucketUs: int): TimeBucket {
    var c := Collected(rows);
    TimeBucket(start, start + bucketUs, Tally(rows), |Emitters(rows)|, Mean(c.snrs), Median(c.snrs),
               Mean(c.rssis), Median(c.rssis), Mean(c.gateways), Mean(c.utilization), Mean(c.airTx))
  }

  ghost function BucketsOf(rows: seq<Row>, starts: seq<int>, at: int -> int, bucketUs: int): seq<TimeBucket> {
    seq(|starts|, i requires 0 <= i < |starts| => BucketOf(Group(rows, starts[i], at), starts[i], bucketUs))
  }

  function InvalidBounds(startUs: Option<int>, endUs: Option<int>): bool {
    || (startUs.Some? && startUs.value < 0) || (endUs.Some? && endUs.value < 0)
    || (startUs.Some? && endUs.Some? && endUs.value <= startUs.value)
  }

  /** `experiment_time_buckets`: one bucket per interval with observations, in order. */
  method ExperimentTimeBuckets(table: seq<Row>, channel: ES.Channel, startUs: Option<int>, endUs: Option<int>,
                               bucketSeconds: int)
    returns (r: Result<seq<TimeBucket>, Problem>)
    ensures r == Err(InvalidRange)
       <==> !(&& (startUs == None || 0 <= startUs.value) && (endUs == None || 0 <= endUs.value)
              && (startUs == None || endUs == None || startUs.value < endUs.value))
    ensures if InvalidBounds(startUs, endUs) then r == Err(InvalidRange)
            else if bucketSeconds <= 0 then r == Err(InvalidBucketSize)
            else var rows := Selected(table, Query(channel, startUs, endUs, None));
                 var bucketUs := bucketSeconds * 1000000;
                 var at := BucketAt(bucketUs);
                 r == Ok(BucketsOf(rows, Ordered(Starts(rows, at)), at, bucketUs))
  {
    if InvalidBounds(startUs, endUs) {
      return Err(InvalidRange);
    }
    if bucketSeconds <= 0 {
      return Err(InvalidBucketSize);
    }
    var bucketUs := bucketSeconds * 1000000;
    var at := BucketAt(bucketUs);
    var rows := Selected(table, Query(channel, startUs, endUs, None));
    var grouped := GroupRows(rows, at);
    var starts := SortedSet(grouped.Keys);
    OrderedAscends(grouped.Keys);
    var buckets := SummarizeGroups(rows, grouped, starts, at, bucketUs);
    return Ok(buckets);
  }

  /** The loop over the sorted groups. */
  method SummarizeGroups(ghost rows: seq<Row>, grouped: map<int, seq<Row>>, starts: seq<int>, ghost at: int -> int,
                         bucketUs: int)
    returns (buckets: seq<TimeBucket>)
    requires forall b :: b in starts ==> b in grouped
    requires forall b :: b in grouped ==> grouped[b] == Group(rows, b, at)
    ensures buckets == BucketsOf(rows, starts, at, bucketUs)
  {
    buckets := [];
    for i := 0 to |starts|
      invariant |buckets| == i
      invariant forall j :: 0 <= j < i ==> buckets[j] == BucketOf(Group(rows, starts[j], at), starts[j], bucketUs)
    {
      assert starts[i] in starts;
      var bucket := SummarizeGroup(grouped[starts[i]], starts[i], bucketUs);
      buckets := buckets + [bucket];
    }
  }

  /** Appending each row to the list of its bucket. */
  method GroupRows(rows: seq<Row>, at: int -> int) returns (grouped: map<int, seq<Row>>)
    ensures grouped.Keys == Starts(rows, at)
    ensures forall b :: b in grouped ==> grouped[b] == Group(rows, b, at)
  {
    grouped := map[];
    for i := 0 to |rows|
      invariant forall b :: b in grouped <==> Group(rows[..i], b, at) != []
      invariant forall b :: b in grouped ==> grouped[b] == Group(rows[..i], b, at)
    {
      var b := at(rows[i].importedAt);
      forall c ensures Group(rows[..i + 1], c, at) == Group(rows[..i], c, at) + if c == b then [rows[i]] else [] {
        GroupStep(rows, c, at, i);
      }
      grouped := grouped[b := (if b in grouped then grouped[b] else []) + [rows[i]]];
    }
    assert rows[..|rows|] == rows;
    forall b ensures b in grouped <==> b in Starts(rows, at) {
      NonEmptyGroup(rows, b, at);
    }
  }

  lemma {:induction false} GroupStep(rows: seq<Row>, c: int, at: int -> int, i: nat)
    requires i < |rows|
    ensures Group(rows[..i + 1], c, at)
         == Group(rows[..i], c, at) + if c == at(rows[i].importedAt) then [rows[i]] else []
  {
    assert rows[..i + 1][..i] == rows[..i];
    assert Group(rows[..i], c, at) + [] == Group(rows[..i], c, at);
  }

  lemma {:induction false} NonEmptyGroup(rows: seq<Row>, b: int, at: int -> int)
    ensures Group(rows, b, at) != [] <==> b in Starts(rows, at)
  {
    var group := Group(rows, b, at);
    if group != [] {
      assert group[0] in group;
    }
    if b in Starts(rows, at) {
      var r :| r in rows && at(r.importedAt) == b;
      assert r in group;
    }
  }

  /** The inner loop over one bucket's rows. */
  method SummarizeGroup(rows: seq<Row>, start: int, bucketUs: int) returns (bucket: TimeBucket)
    ensures bucket == BucketOf(rows, start, bucketUs)
  {
    var nodes, counters, samples := {}, NOTHING, NO_SAMPLES;
    for i := 0 to |rows|
      invariant nodes == Emitters(rows[..i])
      invariant counters == Tally(rows[..i]) && samples == Collected(rows[..i])
    {
      OneMoreRow(rows, i);
      nodes := nodes + {rows[i].fromId};
      counters := counters.Plus(Adds(rows[i]));
      samples := samples.Plus(Gives(rows[i]));
    }
    assert rows[..|rows|] == rows;
    return TimeBucket(start, start + bucketUs, counters, |nodes|, Mean(samples.snrs), Median(samples.snrs),
                      Mean(samples.rssis), Median(samples.rssis), Mean(samples.gateways), Mean(samples.utilization),
                      Mean(samples.airTx));
  }

  // ------------------------------------------------------------ the buckets partition the rows

  function Others(rows: seq<Row>, start: int, at: int -> int): (r: seq<Row>)
    ensures |r| <= |rows|
    ensures forall x :: x in r <==> x in rows && at(x.importedAt) != start
  {
    if rows == [] then []
    else
      var front, last := Others(rows[..|rows| - 1], start, at), rows[|rows| - 1];
      assert rows == rows[..|rows| - 1] + [last];
      if at(last.importedAt) != start then front + [last] else front
  }

  predicate TimeOrdered(rows: seq<Row>) {
    forall i, j :: 0 <= i < j < |rows| ==> rows[i].importedAt <= rows[j].importedAt
  }

  predicate AllIn(rows: seq<Row>, start: int, at: int -> int) {
    forall r :: r in rows ==> at(r.importedAt) == start
  }

  predicate NoneBefore(rows: seq<Row>, start: int, at: int -> int) {
    forall r :: r in rows ==> start <= at(r.importedAt)
  }

  /** If the last row is in the earliest bucket, all rows are. */
  lemma LastInEarliest(rows: seq<Row>, least: int, at: int -> int)
    requires FollowsTime(at) && TimeOrdered(rows) && NoneBefore(rows, least, at)
    requires rows != [] && at(rows[|rows| - 1].importedAt) == least
    ensures AllIn(rows, least, at)
  {
    forall r | r in rows ensures at(r.importedAt) == least {
      var i :| 0 <= i < |rows| && rows[i] == r;
      assert rows[i].importedAt <= rows[|rows| - 1].importedAt;
      assert at(r.importedAt) <= at(rows[|rows| - 1].importedAt);
    }
  }

  lemma {:induction false} WholeGroup(rows: seq<Row>, start: int, at: int -> int)
    requires AllIn(rows, start, at)
    ensures Group(rows, start, at) == rows && Others(rows, start, at) == []
  {
    if rows != [] {
      assert rows[|rows| - 1] in rows;
      WholeGroup(rows[..|rows| - 1], start, at);
    }
  }

  /** Rows in order of time begin with those of the earliest bucket. */
  lemma {:induction false} EarliestFirst(rows: seq<Row>, least: int, at: int -> int)
    requires FollowsTime(at) && TimeOrdered(rows) && NoneBefore(rows, least, at)
    ensures rows == Group(rows, least, at) + Others(rows, least, at)
  {
    if rows != [] {
      var front, last := rows[..|rows| - 1], rows[|rows| - 1];
      if at(last.importedAt) == least {
        LastInEarliest(rows, least, at);
        WholeGroup(rows, least, at);
      } else {
        EarliestFirst(front, least, at);
        LaterRowGoesLast(rows, least, at);
      }
    }
  }

  lemma {:induction false} LaterRowGoesLast(rows: seq<Row>, least: int, at: int -> int)
    requires rows != [] && at(rows[|rows| - 1].importedAt) != least
    requires var front := rows[..|rows| - 1];
             front == Group(front, least, at) + Others(front, least, at)
    ensures rows == Group(rows, least, at) + Others(rows, least, at)
  {
    var front, last := rows[..|rows| - 1], rows[|rows| - 1];
    assert rows == front + [last];
    Regroup(Group(front, least, at), Others(front, least, at), last);
  }

  lemma Regroup(xs: seq<Row>, ys: seq<Row>, z: Row)
    ensures (xs + ys) + [z] == xs + (ys + [z])
  {
  }

  lemma {:induction false} GroupOfOthers(rows: seq<Row>, start: int, other: int, at: int -> int)
    requires start != other
    ensures Group(Others(rows, start, at), other, at) == Group(rows, other, at)
  {
    if rows != [] {
      var front, last := rows[..|rows| - 1], rows[|rows| - 1];
      GroupOfOthers(front, start, other, at);
      if at(last.importedAt) != start {
        var others := Others(front, start, at);
        assert (others + [last])[..|others|] == others;
      }
    }
  }

  lemma {:induction false} OthersStayOrdered(rows: seq<Row>, start: int, at: int -> int)
    requires TimeOrdered(rows)
    ensures TimeOrdered(Others(rows, start, at))
  {
    if rows != [] {
      var front, last := rows[..|rows| - 1], rows[|rows| - 1];
      OthersStayOrdered(front, start, at);
      forall r | r in Others(front, start, at) ensures r.importedAt <= last.importedAt {
        var i :| 0 <= i < |front| && front[i] == r;
        assert rows[i].importedAt <= rows[|rows| - 1].importedAt;
      }
    }
  }

  /** The groups of the starts, one after another. */
  ghost function Joined(rows: seq<Row>, starts: seq<int>, at: int -> int): seq<Row> {
    if starts == [] then [] else Group(rows, starts[0], at) + Joined(rows, starts[1..], at)
  }

  lemma {:induction false} JoinedOfOthers(rows: seq<Row>, start: int, starts: seq<int>, at: int -> int)
    requires start !in starts
    ensures Joined(Others(rows, start, at), starts, at) == Joined(rows, starts, at)
  {
    if starts != [] {
      GroupOfOthers(rows, start, starts[0], at);
      JoinedOfOthers(rows, start, starts[1..], at);
    }
  }

  /** Rows in order of time are their buckets' groups, one after another. */
  lemma {:induction false} BucketsPartition(rows: seq<Row>, at: int -> int)
    requires FollowsTime(at) && TimeOrdered(rows)
    ensures Joined(rows, Ordered(Starts(rows, at)), at) == rows
    decreases Starts(rows, at)
  {
    var all := Starts(rows, at);
    NoStartsIff(rows, at);
    if all != {} {
      LeastExists(all);
      var least :| least in all && NoLessThan(all, least);
      var others := Others(rows, least, at);
      FirstOfOrdered(all, least);
      OrderedAscends(all - {least});
      forall r | r in rows ensures least <= at(r.importedAt) {
        assert at(r.importedAt) in all;
      }
      assert NoneBefore(rows, least, at);
      EarliestFirst(rows, least, at);
      OthersStayOrdered(rows, least, at);
      StartsOfOthers(rows, least, at);
      BucketsPartition(others, at);
      JoinedOfOthers(rows, least, Ordered(all - {least}), at);
    }
  }

  lemma NoStartsIff(rows: seq<Row>, at: int -> int)
    ensures Starts(rows, at) == {} <==> rows == []
  {
    if rows != [] {
      assert at(rows[0].importedAt) in Starts(rows, at);
    }
  }

  lemma {:induction false} StartsOfOthers(rows: seq<Row>, start: int, at: int -> int)
    ensures Starts(Others(rows, start, at), at) == Starts(rows, at) - {start}
  {
    var others := Others(rows, start, at);
    forall b | b in Starts(rows, at) - {start} ensures b in Starts(others, at) {
      var r :| r in rows && at(r.importedAt) == b;
      assert r in others;
    }
  }

  // ------------------------------------------------------------ conservation

  ghost function CountersIn(buckets: seq<TimeBucket>): Counters {
    if buckets == [] then NOTHING else buckets[0].counters.Plus(CountersIn(buckets[1..]))
  }

  /** The gateway means weighted by packets. */
  ghost function WeightedGateways(buckets: seq<TimeBucket>): real {
    if buckets == [] then 0.0
    else Weighted(buckets[0]) + WeightedGateways(buckets[1..])
  }

  /** A mean times the number of values it is the mean of. */
  function TimesCount(mean: Option<real>, n: nat): real {
    if mean.Some? then n as real * mean.value else 0.0
  }

  lemma {:induction false} MeanTimesCount(values: seq<real>)
    ensures TimesCount(Mean(values), |values|) == Total(values)
  {
    if values != [] {
      TimesQuotient(|values| as real, Total(values));
    }
  }

  lemma TimesQuotient(n: real, x: real)
    requires n > 0.0
    ensures n * (x / n) == x
  {
  }

  function Weighted(bucket: TimeBucket): real {
    TimesCount(bucket.gatewayMean, bucket.counters.packets)
  }

  lemma {:induction false} WeightedGroup(rows: seq<Row>, start: int, bucketUs: int)
    ensures Weighted(BucketOf(rows, start, bucketUs)) == Total(Collected(rows).gateways)
  {
    var gateways, bucket := Collected(rows).gateways, BucketOf(rows, start, bucketUs);
    TallyCounts(rows);
    assert bucket.gatewayMean == Mean(gateways) && bucket.counters.packets == |gateways|;
    MeanTimesCount(gateways);
  }

  lemma FirstThenRest<T>(whole: seq<T>, rest: seq<T>)
    requires |whole| == 1 + |rest| && forall i :: 0 <= i < |rest| ==> rest[i] == whole[i + 1]
    ensures whole == [whole[0]] + rest
  {
  }

  lemma {:induction false} FirstBucket(rows: seq<Row>, starts: seq<int>, at: int -> int, bucketUs: int)
    requires starts != []
    ensures BucketsOf(rows, starts, at, bucketUs)
         == [BucketOf(Group(rows, starts[0], at), starts[0], bucketUs)] + BucketsOf(rows, starts[1..], at, bucketUs)
  {
    var whole, rest := BucketsOf(rows, starts, at, bucketUs), BucketsOf(rows, starts[1..], at, bucketUs);
    assert forall i :: 0 <= i < |rest| ==> rest[i] == whole[i + 1];
    FirstThenRest(whole, rest);
  }

  lemma {:induction false} BucketsAddUpTo(rows: seq<Row>, starts: seq<int>, at: int -> int, bucketUs: int)
    ensures CountersIn(BucketsOf(rows, starts, at, bucketUs)) == Tally(Joined(rows, starts, at))
    ensures WeightedGateways(BucketsOf(rows, starts, at, bucketUs))
         == Total(Collected(Joined(rows, starts, at)).gateways)
  {
    if starts != [] {
      var rest := Joined(rows, starts[1..], at);
      BucketsAddUpTo(rows, starts[1..], at, bucketUs);
      FirstBucket(rows, starts, at, bucketUs);
      OneMoreBucket(Group(rows, starts[0], at), starts[0], bucketUs, BucketsOf(rows, starts[1..], at, bucketUs), rest);
    }
  }

  lemma {:induction false} AddBucket(b: TimeBucket, buckets: seq<TimeBucket>)
    ensures CountersIn([b] + buckets) == b.counters.Plus(CountersIn(buckets))
    ensures WeightedGateways([b] + buckets) == Weighted(b) + WeightedGateways(buckets)
  {
    assert ([b] + buckets)[1..] == buckets;
  }

  lemma {:induction false} OneMoreCounted(b: TimeBucket, group: seq<Row>, buckets: seq<TimeBucket>, rest: seq<Row>)
    requires b.counters == Tally(group)
    requires CountersIn(buckets) == Tally(rest)
    ensures CountersIn([b] + buckets) == Tally(group + rest)
  {
    AddBucket(b, buckets);
    TallyJoin(group, rest);
  }

  lemma {:induction false} OneMoreWeighted(b: TimeBucket, group: seq<Row>, buckets: seq<TimeBucket>, rest: seq<Row>)
    requires Weighted(b) == Total(Collected(group).gateways)
    requires WeightedGateways(buckets) == Total(Collected(rest).gateways)
    ensures WeightedGateways([b] + buckets) == Total(Collected(group + rest).gateways)
  {
    AddBucket(b, buckets);
    CollectedJoin(group, rest);
    TotalJoin(Collected(group).gateways, Collected(rest).gateways);
  }

  lemma {:induction false} OneMoreBucket(group: seq<Row>, start: int, bucketUs: int, buckets: seq<TimeBucket>,
                                         rest: seq<Row>)
    requires CountersIn(buckets) == Tally(rest)
    requires WeightedGateways(buckets) == Total(Collected(rest).gateways)
    ensures CountersIn([BucketOf(group, start, bucketUs)] + buckets) == Tally(group + rest)
    ensures WeightedGateways([BucketOf(group, start, bucketUs)] + buckets) == Total(Collected(group + rest).gateways)
  {
    WeightedGroup(group, start, bucketUs);
    OneMoreCounted(BucketOf(group, start, bucketUs), group, buckets, rest);
    OneMoreWeighted(BucketOf(group, start, bucketUs), group, buckets, rest);
  }

  lemma {:induction false} SelectedInTime(table: seq<Row>, q: Query)
    requires Sorted(table, RowLe)
    ensures TimeOrdered(Selected(table, q))
  {
    SelectedStaysSorted(table, q);
    var rows := Selected(table, q);
    forall i, j | 0 <= i < j < |rows| ensures rows[i].importedAt <= rows[j].importedAt {
      assert RowLe(rows[i], rows[j]);
    }
  }

  /** For every window and bucket size: the counts of the time buckets add up to those of the channel's
      summary, and the bucket means weighted by packets give its mean number of gateways. */
  lemma {:induction false} BucketsReproduceSummary(table: seq<Row>, q: Query, bucketUs: int, s: Summary)
    requires Sorted(table, RowLe) && bucketUs > 0
    requires Summarizes(s, Selected(table, q))
    ensures var rows := Selected(table, q);
            var at := BucketAt(bucketUs);
            var buckets := BucketsOf(rows, Ordered(Starts(rows, at)), at, bucketUs);
            && CountersIn(buckets) == s.counters
            && (s.gatewayMean.Some? ==> WeightedGateways(buckets) / s.counters.packets as real == s.gatewayMean.value)
            && (s.gatewayMean.None? <==> buckets == [])
  {
    var rows := Selected(table, q);
    var at := BucketAt(bucketUs);
    BucketAtFollowsTime(bucketUs);
    SelectedInTime(table, q);
    BucketsPartition(rows, at);
    BucketsAddUpTo(rows, Ordered(Starts(rows, at)), at, bucketUs);
    TallyCounts(rows);
    EmptyIff(rows, at);
  }

  lemma EmptyIff(rows: seq<Row>, at: int -> int)
    ensures Ordered(Starts(rows, at)) == [] <==> rows == []
  {
    NoStartsIff(rows, at);
    OrderedAscends(Starts(rows, at));
    if Starts(rows, at) != {} {
      NonEmpty(Starts(rows, at));
    }
  }

  // ------------------------------------------------------------ what a bucket means

  /** A bucket says of its rows what the summary of the same rows says. */
  lemma BucketSaysWhatTheSummarySays(rows: seq<Row>, start: int, bucketUs: int, s: Summary)
    requires Summarizes(s, rows)
    ensures var b := BucketOf(rows, start, bucketUs);
            && b.startUs == start && b.endUs == start + bucketUs
            && b.counters == s.counters && b.nodes == s.nodes
            && b.snrMean == s.snr.mean && b.snrMedian == s.snr.median
            && b.rssiMean == s.rssi.mean && b.rssiMedian == s.rssi.median
            && b.gatewayMean == s.gatewayMean
            && b.utilizationMean == s.utilization.mean && b.airTxMean == s.airTx.mean
  {
  }

  /** A row is in the bucket that begins at a multiple of the size when it lies within it, end excluded. */
  lemma {:induction false} GroupIsInterval(rows: seq<Row>, k: int, bucketUs: int, r: Row)
    requires bucketUs > 0
    ensures r in Group(rows, k * bucketUs, BucketAt(bucketUs))
       <==> r in rows && k * bucketUs <= r.importedAt < (k + 1) * bucketUs
  {
    InItsBucket(r.importedAt, bucketUs, k);
    assert (k + 1) * bucketUs == k * bucketUs + bucketUs;
  }

  /** A series has one bucket for each interval that holds rows, in order, and summarizes the rows of the
      interval; an interval is `bucketUs` long and begins at a multiple of that. */
  ghost predicate TellsSeries(series: seq<TimeBucket>, rows: seq<Row>, bucketUs: int)
    requires bucketUs > 0
  {
    && (forall i, j :: 0 <= i < j < |series| ==> series[i].startUs < series[j].startUs)
    && (forall i :: 0 <= i < |series| ==> TellsInterval(series[i], rows, bucketUs))
    && (forall r :: r in rows ==> exists i :: 0 <= i < |series| && series[i].startUs <= r.importedAt < series[i].endUs)
  }

  ghost predicate TellsInterval(b: TimeBucket, rows: seq<Row>, bucketUs: int)
    requires bucketUs > 0
  {
    && b.startUs % bucketUs == 0 && b.endUs - b.startUs == bucketUs
    && exists group ::
         group != [] && b == BucketOf(group, b.startUs, bucketUs) && IsInterval(group, rows, b.startUs, b.endUs)
  }

  ghost predicate IsInterval(group: seq<Row>, rows: seq<Row>, startUs: int, endUs: int) {
    && |group| == CountOf(rows, InInterval(startUs, endUs))
    && forall r :: r in group <==> r in rows && startUs <= r.importedAt < endUs
  }

  function InInterval(startUs: int, endUs: int): Row -> bool {
    (r: Row) => startUs <= r.importedAt < endUs
  }

  lemma {:induction false} GroupCount(rows: seq<Row>, start: int, at: int -> int, p: Row -> bool)
    requires forall r :: p(r) <==> at(r.importedAt) == start
    ensures |Group(rows, start, at)| == CountOf(rows, p)
  {
    if rows != [] {
      GroupCount(rows[..|rows| - 1], start, at, p);
    }
  }

  /** The rows of a bucket are those of its interval. */
  lemma {:induction false} GroupOfInterval(rows: seq<Row>, k: int, bucketUs: int)
    requires bucketUs > 0
    ensures var start := k * bucketUs; IsInterval(Group(rows, start, BucketAt(bucketUs)), rows, start, start + bucketUs)
  {
    var at, start := BucketAt(bucketUs), k * bucketUs;
    forall x: Row ensures InInterval(start, start + bucketUs)(x) <==> at(x.importedAt) == start {
      InItsBucket(x.importedAt, bucketUs, k);
    }
    GroupCount(rows, start, at, InInterval(start, start + bucketUs));
  }

  lemma {:induction false} IntervalOfGroup(group: seq<Row>, rows: seq<Row>, start: int, bucketUs: int)
    requires bucketUs > 0 && start % bucketUs == 0
    requires group != [] && IsInterval(group, rows, start, start + bucketUs)
    ensures TellsInterval(BucketOf(group, start, bucketUs), rows, bucketUs)
  {
  }

  lemma {:induction false} IntervalTold(rows: seq<Row>, start: int, bucketUs: int)
    requires bucketUs > 0 && start in Starts(rows, BucketAt(bucketUs))
    ensures TellsInterval(BucketOf(Group(rows, start, BucketAt(bucketUs)), start, bucketUs), rows, bucketUs)
  {
    var at := BucketAt(bucketUs);
    var r :| r in rows && at(r.importedAt) == start;
    var k := r.importedAt / bucketUs;
    MultipleLeavesNothing(k, bucketUs);
    GroupOfInterval(rows, k, bucketUs);
    var group := Group(rows, start, at);
    assert r in group;
    IntervalOfGroup(group, rows, start, bucketUs);
  }

  lemma MultipleLeavesNothing(k: int, n: int)
    requires n > 0
    ensures (k * n) % n == 0
  {
    var q, rest := k * n / n, k * n % n;
    assert k * n == q * n + rest;
    assert (k - q) * n == rest;
    Multiples(k - q, n);
  }

  lemma {:induction false} SeriesTells(rows: seq<Row>, bucketUs: int)
    requires bucketUs > 0
    ensures var at := BucketAt(bucketUs);
            TellsSeries(BucketsOf(rows, Ordered(Starts(rows, at)), at, bucketUs), rows, bucketUs)
  {
    var at := BucketAt(bucketUs);
    var starts := Ordered(Starts(rows, at));
    OrderedAscends(Starts(rows, at));
    SeriesOfStarts(rows, starts, bucketUs);
  }

  lemma {:induction false} SeriesOfStarts(rows: seq<Row>, starts: seq<int>, bucketUs: int)
    requires bucketUs > 0 && Ascending(starts)
    requires forall start :: start in starts <==> start in Starts(rows, BucketAt(bucketUs))
    ensures TellsSeries(BucketsOf(rows, starts, BucketAt(bucketUs), bucketUs), rows, bucketUs)
  {
    var series := BucketsOf(rows, starts, BucketAt(bucketUs), bucketUs);
    forall i | 0 <= i < |series| ensures TellsInterval(series[i], rows, bucketUs) {
      assert starts[i] in starts;
      IntervalTold(rows, starts[i], bucketUs);
    }
    forall r | r in rows ensures exists i :: 0 <= i < |series| && series[i].startUs <= r.importedAt < series[i].endUs {
      var i := BucketOfRow(rows, starts, bucketUs, r);
    }
  }

  lemma {:induction false} BucketOfRow(rows: seq<Row>, starts: seq<int>, bucketUs: int, r: Row) returns (i: nat)
    requires bucketUs > 0 && r in rows
    requires forall start :: start in starts <==> start in Starts(rows, BucketAt(bucketUs))
    ensures i < |starts|
    ensures var b := BucketsOf(rows, starts, BucketAt(bucketUs), bucketUs)[i]; b.startUs <= r.importedAt < b.endUs
  {
    var start := BucketStart(r.importedAt, bucketUs);
    assert start in Starts(rows, BucketAt(bucketUs));
    i :| 0 <= i < |starts| && starts[i] == start;
    InItsBucket(r.importedAt, bucketUs, r.importedAt / bucketUs);
  }
}
