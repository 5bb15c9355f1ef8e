/** The static hour files of the live history (`live_history_publication.py`).

    Hour files are kept by the start of their hour; `PathsTellHoursApart` is why that loses nothing. */
module LiveHistoryPublication {
  import opened Basics
  import opened Ordering
  import opened LiveHistory
  import Timestamps

  const HOUR_LIMIT: nat := 5000

  // ------------------------------------------------------------ paths

  /** 1970-01-01T00:00:00Z */
  const EPOCH: int := 719162 * 86400

  /** The moment in seconds. */
  function Moment(startUs: int): int {
    EPOCH + startUs / 1000000
  }

  predicate NamedHour(startUs: int) {
    startUs % HOUR_US == 0 && Timestamps.InstantInRange(Moment(startUs))
  }

  function PathOf(d: Timestamps.DateTime): string {
    Timestamps.Padded(d.year, 4) + "-" + Timestamps.Padded(d.month, 2) + "-" + Timestamps.Padded(d.day, 2)
    + "/" + Timestamps.Padded(d.hour, 2) + ".json"
  }

  /** `history_hour_path`: YYYY-MM-DD/HH.json */
  function HourPath(startUs: int): string
    requires NamedHour(startUs)
  {
    PathOf(Timestamps.Fields(Moment(startUs)))
  }

  lemma PathParts(d: Timestamps.DateTime)
    ensures var p := PathOf(d);
            && |p| == 18
            && p[..4] == Timestamps.Padded(d.year, 4) && p[5..7] == Timestamps.Padded(d.month, 2)
            && p[8..10] == Timestamps.Padded(d.day, 2) && p[11..13] == Timestamps.Padded(d.hour, 2)
  {
  }

  /** The path tells the date and the hour. */
  lemma PathTellsHour(d: Timestamps.DateTime, e: Timestamps.DateTime)
    requires d.Valid() && e.Valid() && PathOf(d) == PathOf(e)
    ensures d.year == e.year && d.month == e.month && d.day == e.day && d.hour == e.hour
  {
    PathParts(d);
    PathParts(e);
    assert Timestamps.Power10(2) == 100 by { assert Timestamps.Power10(1) == 10; }
    assert Timestamps.Power10(4) == 10000 by { assert Timestamps.Power10(3) == 1000; }
    Timestamps.PaddedOrder(d.year, e.year, 4);
    Timestamps.PaddedOrder(d.month, e.month, 2);
    Timestamps.PaddedOrder(d.day, e.day, 2);
    Timestamps.PaddedOrder(d.hour, e.hour, 2);
  }

  lemma HourInSeconds(startUs: int)
    requires startUs % HOUR_US == 0
    ensures startUs == (Moment(startUs) - EPOCH) * 1000000 && Moment(startUs) % 3600 == 0
  {
    var k := startUs / HOUR_US;
    assert startUs == k * 3600 * 1000000;
    assert Moment(startUs) == (719162 * 24 + k) * 3600;
  }

  lemma OnTheHour(d: Timestamps.DateTime)
    requires d.Valid() && Timestamps.Instant(d) % 3600 == 0
    ensures d.minute == 0 && d.second == 0
  {
    NoRemainder(Timestamps.DayNumber(d) * 24 + d.hour, d.minute * 60 + d.second);
  }

  lemma NoRemainder(hours: int, rest: int)
    requires 0 <= rest < 3600 && (hours * 3600 + rest) % 3600 == 0
    ensures rest == 0
  {
  }

  /** Two hours have the same path only if they are the same hour. */
  lemma PathsTellHoursApart(a: int, b: int)
    requires NamedHour(a) && NamedHour(b)
    ensures HourPath(a) == HourPath(b) <==> a == b
  {
    HourInSeconds(a);
    HourInSeconds(b);
    var d, e := Timestamps.Fields(Moment(a)), Timestamps.Fields(Moment(b));
    if PathOf(d) == PathOf(e) {
      PathTellsHour(d, e);
      OnTheHour(d);
      OnTheHour(e);
      assert d == e;
    }
  }

  /** The path of an hour reads YYYY-MM-DD/HH.json, with the date and the hour at which it begins. */
  lemma PathReads(startUs: int)
    requires NamedHour(startUs)
    ensures exists d: Timestamps.DateTime ::
              && d.Valid() && d.minute == 0 && d.second == 0
              && startUs
              == (Timestamps.Instant(d) - Timestamps.Instant(Timestamps.DateTime(1970, 1, 1, 0, 0, 0))) * 1000000
              && ReadsAs(HourPath(startUs), d)
  {
    var d := Timestamps.Fields(Moment(startUs));
    HourInSeconds(startUs);
    OnTheHour(d);
    EpochIsInstant();
    PathReadsAs(d);
  }

  lemma EpochIsInstant()
    ensures Timestamps.Instant(Timestamps.DateTime(1970, 1, 1, 0, 0, 0)) == EPOCH
  {
  }

  predicate ReadsAs(p: string, d: Timestamps.DateTime) {
    && |p| == 18
    && p[4] == '-' && p[7] == '-' && p[10] == '/' && p[13..] == ".json"
    && Timestamps.NumberOf(p[..4]) == d.year && Timestamps.NumberOf(p[5..7]) == d.month
    && Timestamps.NumberOf(p[8..10]) == d.day && Timestamps.NumberOf(p[11..13]) == d.hour
  }

  lemma PathReadsAs(d: Timestamps.DateTime)
    requires d.Valid()
    ensures ReadsAs(PathOf(d), d)
  {
    PathParts(d);
    assert Timestamps.Power10(2) == 100 by { assert Timestamps.Power10(1) == 10; }
    assert Timestamps.Power10(4) == 10000 by { assert Timestamps.Power10(3) == 1000; }
    Timestamps.PaddedReadsBack(d.year, 4);
    Timestamps.PaddedReadsBack(d.month, 2);
    Timestamps.PaddedReadsBack(d.day, 2);
    Timestamps.PaddedReadsBack(d.hour, 2);
  }

  // ------------------------------------------------------------ hour documents

  datatype HourDocument = HourDocument(startUs: int, eventCount: nat, events: seq<Event>)

  datatype PublicationError = NotAnHour | TooManyEvents

  /** The history of an hour. */
  ghost function HourEvents(t: Table, hour: int): (list: seq<Event>) {
    Enumerated(t, OfHour(hour))
  }

  ghost function DocumentOf(t: Table, hour: int): HourDocument {
    HourDocument(hour, |HourEvents(t, hour)|, HourEvents(t, hour))
  }

  /** Imported within the 3600 seconds from the start. */
  predicate InHour(e: Event, startUs: int) {
    startUs <= e.importedAt < startUs + 3600 * 1000000
  }

  /** The document lists the events of its hour, each once, by time of import, packet id and event id. */
  ghost predicate TellsHour(document: HourDocument, t: Table, startUs: int) {
    && document.startUs == startUs
    && document.eventCount == |document.events| == |set id | id in t && InHour(t[id], startUs)|
    && DistinctIds(document.events)
    && (forall i, j :: 0 <= i < j < |document.events| ==> ImportOrder(document.events[i], document.events[j]))
    && (forall e :: e in document.events <==> e.id in t && t[e.id] == e && InHour(e, startUs))
  }

  lemma DocumentTellsHour(t: Table, startUs: int)
    ensures TellsHour(DocumentOf(t, startUs), t, startUs)
  {
    var list := HourEvents(t, startUs);
    EnumerationCounts(list, t, OfHour(startUs));
    assert (set id | id in t && OfHour(startUs)(t[id])) == set id | id in t && InHour(t[id], startUs);
    forall i, j | 0 <= i < j < |list| ensures ImportOrder(list[i], list[j]) {
      EventLeIsImportOrder(list[i], list[j]);
    }
  }

  /** `build_history_hour_document` */
  method BuildHourDocument(store: LiveHistoryStore, startUs: int) returns (r: Result<HourDocument, PublicationError>)
    ensures if startUs < 0 || startUs % HOUR_US != 0 then r == Err(NotAnHour)
            else if |HourEvents(store.events, startUs)| > HOUR_LIMIT then r == Err(TooManyEvents)
            else r == Ok(DocumentOf(store.events, startUs))
    ensures r == Err(NotAnHour) <==> startUs < 0 || startUs % (3600 * 1000000) != 0
    ensures r == Err(TooManyEvents) ==> |set id | id in store.events && InHour(store.events[id], startUs)| > 5000
    ensures r.Ok? ==> TellsHour(r.value, store.events, startUs) && |r.value.events| <= 5000
  {
    DocumentTellsHour(store.events, startUs);
    if startUs < 0 || startUs % HOUR_US != 0 {
      return Err(NotAnHour);
    }
    var result := store.QueryEvents(startUs, startUs + HOUR_US, HOUR_LIMIT, All);
    SameRowsSameAnswer(store.events, Wanted(startUs, startUs + HOUR_US, All), store.events, OfHour(startUs));
    if result.value.truncated {
      return Err(TooManyEvents);
    }
    return Ok(HourDocument(startUs, result.value.total, result.value.events));
  }

  // ------------------------------------------------------------ the manifest

  datatype Manifest = Manifest(oldest: Option<int>, newest: Option<int>, hourCount: nat, eventCount: nat,
                               tracerouteCount: nat, nodeHours: map<string, seq<int>>, hours: seq<Bucket>)

  ghost function Traced(t: Table): set<string> {
    set id | id in t && t[id].traceroute.Some?
  }

  /** The manifest lists exactly the hours with events, with their counts, and its totals and bounds
      are those of the whole history. */
  ghost predicate Describes(m: Manifest, t: Table) {
    && Buckets(m.hours, t) && NodeHours(m.nodeHours, t)
    && m.hourCount == |m.hours|
    && m.eventCount == |t|
    && m.tracerouteCount == |Traced(t)|
    && (m.oldest.None? <==> t == map[]) && (m.newest.None? <==> t == map[])
    && (m.oldest.Some? ==> Bound(t, m.oldest.value, false))
    && (m.newest.Some? ==> Bound(t, m.newest.value, true))
  }

  /** The moment is the least (or greatest) import time. */
  ghost predicate Bound(t: Table, at: int, upper: bool) {
    && (exists id :: id in t && t[id].importedAt == at)
    && forall id :: id in t ==> if upper then t[id].importedAt <= at else at <= t[id].importedAt
  }

  function CountedTraces(bs: seq<Bucket>): nat {
    if bs == [] then 0 else CountedTraces(bs[..|bs| - 1]) + bs[|bs| - 1].traceroutes
  }

  lemma TracesSplit(t: Table, bs: seq<Bucket>)
    requires bs != []
    requires forall i, j :: 0 <= i < j < |bs| ==> bs[i].start < bs[j].start
    ensures IdsCovered(t, bs) * Traced(t)
         == IdsCovered(t, bs[..|bs| - 1]) * Traced(t) + TracesOfHour(t, bs[|bs| - 1].start)
    ensures IdsCovered(t, bs[..|bs| - 1]) * Traced(t) !! TracesOfHour(t, bs[|bs| - 1].start)
  {
    var n := |bs| - 1;
    IdsSplit(t, bs);
    assert TracesOfHour(t, bs[n].start) == IdsOfHour(t, bs[n].start) * Traced(t);
  }

  lemma {:induction false} TracesAddUp(t: Table, bs: seq<Bucket>)
    requires forall i, j :: 0 <= i < j < |bs| ==> bs[i].start < bs[j].start
    requires forall i :: 0 <= i < |bs| ==> bs[i].traceroutes == |TracesOfHour(t, bs[i].start)|
    ensures CountedTraces(bs) == |IdsCovered(t, bs) * Traced(t)|
  {
    if bs == [] {
      assert IdsCovered(t, bs) == {};
    } else {
      TracesAddUp(t, bs[..|bs| - 1]);
      TracesSplit(t, bs);
    }
  }

  /** The manifest in plain terms: every hour with events and no other, in order, with the number of its events
      and of those with a route; totals and bounds of the whole history; and for each node the hours of the
      events it takes part in. */
  ghost predicate TellsAll(m: Manifest, t: Table) {
    TellsHours(m.hours, t) && TellsTotals(m, t) && TellsBounds(m.oldest, m.newest, t) && TellsNodes(m.nodeHours, t)
  }

  ghost predicate TellsHours(hours: seq<Bucket>, t: Table) {
    && (forall i, j :: 0 <= i < j < |hours| ==> hours[i].start < hours[j].start)
    && (forall i :: 0 <= i < |hours| ==> TellsBucket(hours[i], t))
    && (forall id :: id in t ==> IsListed(t[id], hours))
  }

  ghost predicate IsListed(e: Event, hours: seq<Bucket>) {
    exists i :: 0 <= i < |hours| && InHour(e, hours[i].start)
  }

  ghost predicate TellsTotals(m: Manifest, t: Table) {
    && m.hourCount == |m.hours| && m.eventCount == |t|
    && m.tracerouteCount == |set id | id in t && t[id].traceroute.Some?|
  }

  ghost predicate TellsBounds(oldest: Option<int>, newest: Option<int>, t: Table) {
    if t == map[] then oldest.None? && newest.None?
    else && oldest.Some? && newest.Some?
         && (exists id :: id in t && t[id].importedAt == oldest.value)
         && (exists id :: id in t && t[id].importedAt == newest.value)
         && forall id :: id in t ==> oldest.value <= t[id].importedAt <= newest.value
  }

  ghost predicate TellsNodes(index: map<string, seq<int>>, t: Table) {
    forall node, hour :: (node in index && hour in index[node])
                    <==> hour % (3600 * 1000000) == 0 && InvolvedIn(t, node, hour)
  }

  ghost predicate InvolvedIn(t: Table, node: string, hour: int) {
    exists id :: id in t && InHour(t[id], hour) && node in Participants(t[id])
  }

  ghost predicate TellsBucket(bucket: Bucket, t: Table) {
    && bucket.start % (3600 * 1000000) == 0
    && (exists id :: id in t && InHour(t[id], bucket.start))
    && bucket.events == |set id | id in t && InHour(t[id], bucket.start)|
    && bucket.traceroutes == |set id | id in t && InHour(t[id], bucket.start) && t[id].traceroute.Some?|
  }

  lemma InHourIff(e: Event, hour: int)
    requires hour % (3600 * 1000000) == 0
    ensures InHour(e, hour) <==> HourOf(e.importedAt) == hour
  {
    OfHourIff(e, hour);
  }

  lemma BucketTells(bs: seq<Bucket>, t: Table, i: nat)
    requires Buckets(bs, t) && i < |bs|
    ensures TellsBucket(bs[i], t)
  {
    var start := bs[i].start;
    var id :| id in IdsOfHour(t, start);
    HourIsAligned(t[id].importedAt);
    IdsOfAlignedHour(t, start);
    assert id in set other | other in t && InHour(t[other], start);
  }

  lemma IdsOfAlignedHour(t: Table, hour: int)
    requires hour % (3600 * 1000000) == 0
    ensures IdsOfHour(t, hour) == set id | id in t && InHour(t[id], hour)
    ensures TracesOfHour(t, hour) == set id | id in t && InHour(t[id], hour) && t[id].traceroute.Some?
  {
    forall id | id in t ensures InHour(t[id], hour) <==> HourOf(t[id].importedAt) == hour {
      InHourIff(t[id], hour);
    }
  }

  lemma HoursTell(bs: seq<Bucket>, t: Table)
    requires Buckets(bs, t)
    ensures TellsHours(bs, t)
  {
    forall i | 0 <= i < |bs| ensures TellsBucket(bs[i], t) {
      BucketTells(bs, t, i);
    }
    forall id | id in t ensures IsListed(t[id], bs) {
      EventIsListed(bs, t, id);
    }
  }

  lemma EventIsListed(bs: seq<Bucket>, t: Table, id: string)
    requires Buckets(bs, t) && id in t
    ensures IsListed(t[id], bs)
  {
    var i :| 0 <= i < |bs| && bs[i].start == HourOf(t[id].importedAt);
    InItsHour(t[id]);
  }

  lemma InItsHour(e: Event)
    ensures InHour(e, HourOf(e.importedAt))
  {
    HourIsAligned(e.importedAt);
  }

  lemma TakesPartIff(t: Table, node: string, hour: int)
    ensures TakesPart(t, node, hour) <==> hour % (3600 * 1000000) == 0 && InvolvedIn(t, node, hour)
  {
    if id :| id in t && HourOf(t[id].importedAt) == hour && node in Participants(t[id]) {
      HourIsAligned(t[id].importedAt);
      InHourIff(t[id], hour);
    }
    if hour % (3600 * 1000000) == 0 {
      if id :| id in t && InHour(t[id], hour) && node in Participants(t[id]) {
        InHourIff(t[id], hour);
      }
    }
  }

  lemma NodesTell(index: map<string, seq<int>>, t: Table)
    requires NodeHours(index, t)
    ensures TellsNodes(index, t)
  {
    forall node, hour
      ensures (node in index && hour in index[node]) <==> hour % (3600 * 1000000) == 0 && InvolvedIn(t, node, hour)
    {
      TakesPartIff(t, node, hour);
    }
  }

  lemma BoundsTell(oldest: Option<int>, newest: Option<int>, t: Table)
    requires (oldest.None? <==> t == map[]) && (newest.None? <==> t == map[])
    requires oldest.Some? ==> Bound(t, oldest.value, false)
    requires newest.Some? ==> Bound(t, newest.value, true)
    ensures TellsBounds(oldest, newest, t)
  {
  }

  /** What a manifest that describes a history says of it. */
  lemma ManifestTellsAll(m: Manifest, t: Table)
    requires Describes(m, t)
    ensures TellsAll(m, t)
  {
    HoursTell(m.hours, t);
    assert Traced(t) == set id | id in t && t[id].traceroute.Some?;
    BoundsTell(m.oldest, m.newest, t);
    NodesTell(m.nodeHours, t);
  }

  /** `build_history_manifest` */
  method BuildManifest(store: LiveHistoryStore) returns (m: Manifest)
    ensures Describes(m, store.events)
  {
    var buckets := HourBuckets(store.events);
    var oldest, newest := store.TimeBounds();
    var nodeHours := NodeHoursOf(store.events);
    var events, traceroutes := SumBuckets(buckets);
    BucketsCountEverything(buckets, store.events);
    TracesCountEverything(buckets, store.events);
    return Manifest(oldest, newest, |buckets|, events, traceroutes, nodeHours, buckets);
  }

  lemma {:induction false} TracesCountEverything(bs: seq<Bucket>, t: Table)
    requires Buckets(bs, t)
    ensures CountedTraces(bs) == |Traced(t)|
  {
    TracesAddUp(t, bs);
    CoveredTraces(bs, t);
  }

  lemma {:induction false} CoveredTraces(bs: seq<Bucket>, t: Table)
    requires Buckets(bs, t)
    ensures IdsCovered(t, bs) * Traced(t) == Traced(t)
  {
    AllCovered(bs, t);
    Within(Traced(t), t.Keys);
  }

  lemma Within(a: set<string>, b: set<string>)
    requires a <= b
    ensures b * a == a
  {
  }

  method SumBuckets(bs: seq<Bucket>) returns (events: nat, traceroutes: nat)
    ensures events == Counted(bs) && traceroutes == CountedTraces(bs)
  {
    events, traceroutes := 0, 0;
    for i := 0 to |bs|
      invariant events == Counted(bs[..i]) && traceroutes == CountedTraces(bs[..i])
    {
      assert bs[..i + 1][..i] == bs[..i];
      events := events + bs[i].events;
      traceroutes := traceroutes + bs[i].traceroutes;
    }
    assert bs[..|bs|] == bs;
  }

  // ------------------------------------------------------------ the published files

  type HourFiles = map<int, HourDocument>

  /** What cleaning leaves: the files of hours that hold events. */
  function Cleaned(files: HourFiles, t: Table): HourFiles {
    map h | h in files && h in HoursOf(t) :: files[h]
  }

  /** Some event is of the hour. */
  ghost predicate HoldsEvent(t: Table, hour: int) {
    exists id :: id in t && InHour(t[id], hour)
  }

  lemma HourHoldsEvent(t: Table, hour: int)
    ensures hour in HoursOf(t) <==> hour % (3600 * 1000000) == 0 && HoldsEvent(t, hour)
  {
    if id :| id in t && HourOf(t[id].importedAt) == hour {
      InItsHour(t[id]);
      HourIsAligned(t[id].importedAt);
    }
    if hour % (3600 * 1000000) == 0 {
      if id :| id in t && InHour(t[id], hour) {
        InHourIff(t[id], hour);
      }
    }
  }

  /** The files left are those of hours that hold an event, unchanged. */
  ghost predicate CleaningTells(files: HourFiles, after: HourFiles, t: Table) {
    && (forall h :: h in after <==> h in files && h % (3600 * 1000000) == 0 && HoldsEvent(t, h))
    && (forall h :: h in after ==> after[h] == files[h])
  }

  lemma CleanedTells(files: HourFiles, t: Table)
    ensures CleaningTells(files, Cleaned(files, t), t)
  {
    forall h ensures h in HoursOf(t) <==> h % (3600 * 1000000) == 0 && HoldsEvent(t, h) {
      HourHoldsEvent(t, h);
    }
  }

  /** `cleanup_history_publication` */
  method Cleanup(store: LiveHistoryStore, files: HourFiles) returns (after: HourFiles, removed: nat)
    ensures after == Cleaned(files, store.events)
    ensures removed == |files| - |after|
    ensures CleaningTells(files, after, store.events)
  {
    var retained := HoursOf(store.events);
    after, removed := files, 0;
    var rest := files.Keys;
    while rest != {}
      invariant rest <= files.Keys
      invariant after == map h | h in files && (h in rest || h in retained) :: files[h]
      invariant removed == |files| - |after|
      decreases rest
    {
      NonEmpty(rest);
      var h :| h in rest;
      rest := rest - {h};
      if h !in retained {
        assert after.Keys == (after - {h}).Keys + {h};
        after := after - {h};
        removed := removed + 1;
      }
    }
    CleanedTells(files, store.events);
  }

  /** The files agree with the history: one for each hour that holds an event, with that hour's events. */
  ghost predicate FilesAgree(files: HourFiles, t: Table) {
    && files.Keys == HoursOf(t)
    && forall h :: h in files ==> files[h] == DocumentOf(t, h)
  }

  /** Some event of the file involves the node. */
  ghost predicate FileInvolves(file: HourDocument, node: string) {
    exists e :: e in file.events && node in Participants(e)
  }

  /** Files and manifest that agree with the same history tell the same: the manifest lists just the hours
      that have a file, with the number of its events, and lists an hour for a node just when an event of
      that hour's file involves the node. */
  lemma FilesMatchManifest(files: HourFiles, m: Manifest, t: Table)
    requires FilesAgree(files, t) && Describes(m, t)
    ensures forall h :: h in files <==> exists i :: 0 <= i < |m.hours| && m.hours[i].start == h
    ensures forall i :: 0 <= i < |m.hours| ==>
              && m.hours[i].start in files
              && m.hours[i].events == files[m.hours[i].start].eventCount == |files[m.hours[i].start].events|
    ensures forall node, h :: (node in m.nodeHours && h in m.nodeHours[node])
                         <==> h in files && FileInvolves(files[h], node)
  {
    forall h | h in files ensures exists i :: 0 <= i < |m.hours| && m.hours[i].start == h {
      var id :| id in t && HourOf(t[id].importedAt) == h;
    }
    forall i | 0 <= i < |m.hours|
      ensures m.hours[i].start in files
      ensures m.hours[i].events == files[m.hours[i].start].eventCount == |files[m.hours[i].start].events|
    {
      BucketMatchesFile(files, m.hours, t, i);
    }
    forall node, h ensures TakesPart(t, node, h) <==> h in files && FileInvolves(files[h], node) {
      InvolvedIff(files, t, node, h);
    }
  }

  lemma BucketMatchesFile(files: HourFiles, bs: seq<Bucket>, t: Table, i: nat)
    requires FilesAgree(files, t) && Buckets(bs, t) && i < |bs|
    ensures bs[i].start in files && bs[i].events == files[bs[i].start].eventCount == |files[bs[i].start].events|
  {
    var id :| id in IdsOfHour(t, bs[i].start);
    HourCount(t, bs[i].start);
  }

  lemma HourCount(t: Table, hour: int)
    requires hour in HoursOf(t)
    ensures |IdsOfHour(t, hour)| == |HourEvents(t, hour)|
  {
    EnumerationCounts(HourEvents(t, hour), t, OfHour(hour));
    var id :| id in t && HourOf(t[id].importedAt) == hour;
    forall e: Event ensures OfHour(hour)(e) <==> HourOf(e.importedAt) == hour {
      OfHourIff(e, hour);
    }
    assert IdsOfHour(t, hour) == set id | id in t && OfHour(hour)(t[id]);
  }

  lemma InvolvedIff(files: HourFiles, t: Table, node: string, h: int)
    requires FilesAgree(files, t)
    ensures TakesPart(t, node, h) <==> h in files && FileInvolves(files[h], node)
  {
    if TakesPart(t, node, h) {
      var id :| id in t && HourOf(t[id].importedAt) == h && node in Participants(t[id]);
      OfHourIff(t[id], h);
      assert t[id] in HourEvents(t, h);
    }
    if h in files && FileInvolves(files[h], node) {
      var e :| e in files[h].events && node in Participants(e);
      OfHourIff(e, h);
      assert t[e.id] == e;
    }
  }
}
