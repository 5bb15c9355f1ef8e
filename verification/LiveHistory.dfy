/** The history of live events (`live_history.py`). */
module LiveHistory {
  import opened Basics
  import opened Ordering
  import opened Texts

  const HOUR_US: int := 60 * 60 * 1000000
  const RETENTION_SECONDS: int := 30 * 24 * 60 * 60
  const BROADCAST: string := "meshtastic:!ffffffff"

  datatype Traceroute = Traceroute(towards: seq<string>, back: seq<string>)

  /** What one gateway reports of the signal. */
  datatype Reading = Reading(snr: Option<real>, rssi: Option<real>)

  /** What the radio experiment reads from an event besides its identity; numbers may be missing or no
      numbers.  `readings` lists those of the gateways of each observed stage. */
  datatype Measures = Measures(network: string, channel: string, portnum: Option<int>, gatewayCount: Option<int>,
                               stageCount: Option<int>, readings: seq<seq<Reading>>, telemetryTime: Option<int>,
                               channelUtilization: Option<real>, airUtilTx: Option<real>,
                               batteryLevel: Option<real>, voltage: Option<real>, uptimeSeconds: Option<real>)

  /** A live event document: the columns of the table and the parts that the model reads.  `stages`
      lists the gateway ids of each observed stage. */
  datatype Event = Event(id: string, importedAt: nat, packetId: nat, fromId: string, toId: string,
                         stages: seq<seq<string>>, traceroute: Option<Traceroute>, measures: Measures)

  /** The live_events table, by its primary key. */
  type Table = t: map<string, Event> | Keyed(t) witness map[]

  predicate Keyed(t: map<string, Event>) {
    forall id :: id in t ==> t[id].id == id
  }

  /** The start of the UTC hour of a moment. */
  function HourOf(us: int): (h: int)
    ensures us >= 0 ==> h >= 0
    ensures h <= us < h + HOUR_US && h % HOUR_US == 0
  {
    us / HOUR_US * HOUR_US
  }

  lemma HourIsUnique(us: int, h: int)
    requires h % HOUR_US == 0 && h <= us < h + HOUR_US
    ensures HourOf(us) == h
  {
  }

  /** ORDER BY imported_at_us, packet_id, event_id */
  predicate EventLe(a: Event, b: Event) {
    || a.importedAt < b.importedAt
    || (a.importedAt == b.importedAt && (
        || a.packetId < b.packetId
        || (a.packetId == b.packetId && LexLe(a.id, b.id))))
  }

  lemma EventOrder()
    ensures TotalPreorder(EventLe)
    ensures forall a, b :: EventLe(a, b) && EventLe(b, a) ==> a.id == b.id
  {
    LexIsTotalOrder();
    assert forall a, b :: EventLe(a, b) || EventLe(b, a);
    assert forall a, b, c :: EventLe(a, b) && EventLe(b, c) ==> EventLe(a, c);
  }

  // ------------------------------------------------------------ ordered queries

  predicate DistinctIds(list: seq<Event>) {
    forall i, j :: 0 <= i < j < |list| ==> list[i].id != list[j].id
  }

  /** The list holds exactly the events of the table that satisfy the condition, once each, in order. */
  ghost predicate Enumerates(list: seq<Event>, t: Table, keep: Event -> bool) {
    && Sorted(list, EventLe)
    && DistinctIds(list)
    && (forall e :: e in list <==> e.id in t && t[e.id] == e && keep(e))
  }

  /** An ordered query has one answer. */
  lemma EnumerationIsUnique(xs: seq<Event>, ys: seq<Event>, t: Table, keep: Event -> bool)
    requires Enumerates(xs, t, keep) && Enumerates(ys, t, keep)
    ensures xs == ys
  {
    DistinctSameSet(xs, ys);
    EventOrder();
    forall x, y | x in xs && y in xs && EventLe(x, y) && EventLe(y, x) ensures x == y {
      assert x.id == y.id;
    }
    SortedIsUnique(xs, ys, EventLe);
  }

  lemma {:induction false} EnumerationExists(t: Table, keep: Event -> bool)
    ensures exists list :: Enumerates(list, t, keep)
    decreases |t|
  {
    if t == map[] {
      assert Enumerates([], t, keep);
    } else {
      var id :| id in t;
      var before := t - {id};
      assert |before.Keys| < |t.Keys| by { assert t.Keys == before.Keys + {id}; }
      EnumerationExists(before, keep);
      var list :| Enumerates(list, before, keep);
      if keep(t[id]) {
        InsertEnumerates(list, before, t, keep, t[id]);
      } else {
        assert Enumerates(list, t, keep);
      }
    }
  }

  /** The answer of the ordered query. */
  ghost function Enumerated(t: Table, keep: Event -> bool): (list: seq<Event>)
    ensures Enumerates(list, t, keep)
  {
    EnumerationExists(t, keep);
    var list :| Enumerates(list, t, keep);
    list
  }

  /** The answer depends on the matching rows only. */
  lemma SameRowsSameAnswer(s: Table, sKeep: Event -> bool, t: Table, tKeep: Event -> bool)
    ensures Enumerated(s, sKeep) == Enumerated(t, tKeep)
       <==> forall e: Event :: (e.id in s && s[e.id] == e && sKeep(e)) <==> (e.id in t && t[e.id] == e && tKeep(e))
  {
    var xs, ys := Enumerated(s, sKeep), Enumerated(t, tKeep);
    if forall e: Event :: (e.id in s && s[e.id] == e && sKeep(e)) <==> (e.id in t && t[e.id] == e && tKeep(e)) {
      assert Enumerates(ys, s, sKeep);
      EnumerationIsUnique(xs, ys, s, sKeep);
    }
    if xs == ys {
      forall e: Event ensures (e.id in s && s[e.id] == e && sKeep(e)) <==> (e.id in t && t[e.id] == e && tKeep(e)) {
        assert e in xs <==> e in ys;
      }
    }
  }

  ghost function InRange(startUs: int, endUs: int): Event -> bool {
    (e: Event) => startUs <= e.importedAt < endUs
  }

  ghost function OfHour(hour: int): Event -> bool {
    InRange(hour, hour + HOUR_US)
  }

  ghost function Everything(): Event -> bool {
    (e: Event) => true
  }

  lemma EnumerationCounts(list: seq<Event>, t: Table, keep: Event -> bool)
    requires Enumerates(list, t, keep)
    ensures |list| == |set id | id in t && keep(t[id])|
  {
    ListedIds(list);
    ListedSize(list);
    assert IdSet(list) == set id | id in t && keep(t[id]) by {
      forall id | id in t && keep(t[id]) ensures id in IdSet(list) {
        assert t[id] in list;
      }
    }
  }

  function IdSet(list: seq<Event>): set<string> {
    if list == [] then {} else IdSet(list[..|list| - 1]) + {list[|list| - 1].id}
  }

  lemma {:induction false} ListedIds(list: seq<Event>)
    ensures forall id :: id in IdSet(list) <==> exists e :: e in list && e.id == id
  {
    if list != [] {
      var front, last := list[..|list| - 1], list[|list| - 1];
      ListedIds(front);
      assert list == front + [last];
    }
  }

  lemma {:induction false} ListedSize(list: seq<Event>)
    requires DistinctIds(list)
    ensures |IdSet(list)| == |list|
  {
    if list != [] {
      var n := |list| - 1;
      ListedSize(list[..n]);
      ListedIds(list[..n]);
      forall e | e in list[..n] ensures e.id != list[n].id {
        var i :| 0 <= i < n && list[..n][i] == e;
        assert list[i].id != list[n].id;
      }
    }
  }

  datatype Kind = All | TracerouteOnly | PacketOnly

  ghost function Wanted(startUs: int, endUs: int, kind: Kind): Event -> bool {
    (e: Event) => startUs <= e.importedAt < endUs
                  && (kind.TracerouteOnly? ==> e.traceroute.Some?) && (kind.PacketOnly? ==> e.traceroute.None?)
  }

  datatype QueryResult = QueryResult(events: seq<Event>, total: nat, truncated: bool)

  /** LIMIT, with the number of all the matches. */
  function FirstOf(all: seq<Event>, limit: nat): QueryResult {
    QueryResult(if |all| <= limit then all else all[..limit], |all|, |all| > limit)
  }

  datatype HistoryError = InvalidEvent | InvalidRange | InvalidLimit | InvalidRetention

  // ------------------------------------------------------------ the table as a value

  predicate ValidEvent(e: Event) {
    e.id != "" && e.fromId != "" && e.toId != ""
  }

  /** Upserting a batch: the last version of an id wins. */
  function Upserted(t: Table, batch: seq<Event>): Table {
    if batch == [] then t
    else
      var n := |batch| - 1;
      Upserted(t, batch[..n])[batch[n].id := batch[n]]
  }

  function Cutoff(referenceUs: int, retentionSeconds: int): int {
    referenceUs - retentionSeconds * 1000000
  }

  function PrunedBefore(t: Table, cutoffUs: int): Table {
    map id | id in t && t[id].importedAt >= cutoffUs :: t[id]
  }

  // ------------------------------------------------------------ buckets and indexes

  datatype Bucket = Bucket(start: int, events: nat, traceroutes: nat)

  ghost function IdsOfHour(t: Table, hour: int): set<string> {
    set id | id in t && HourOf(t[id].importedAt) == hour
  }

  ghost function TracesOfHour(t: Table, hour: int): set<string> {
    set id | id in t && HourOf(t[id].importedAt) == hour && t[id].traceroute.Some?
  }

  /** GROUP BY hour ORDER BY hour: strictly ascending hours, exactly those with events, each with its counts. */
  ghost predicate Buckets(bs: seq<Bucket>, t: Table) {
    && (forall i, j :: 0 <= i < j < |bs| ==> bs[i].start < bs[j].start)
    && (forall i :: 0 <= i < |bs| ==>
          && IdsOfHour(t, bs[i].start) != {}
          && bs[i].events == |IdsOfHour(t, bs[i].start)|
          && bs[i].traceroutes == |TracesOfHour(t, bs[i].start)|)
    && (forall id :: id in t ==> exists i :: 0 <= i < |bs| && bs[i].start == HourOf(t[id].importedAt))
  }

  /** The nodes that take part in an event: origin, destination, gateways, and nodes of the routes. */
  function Participants(e: Event): set<string> {
    (({e.fromId, e.toId} + Mentioned(e.stages)
     + (if e.traceroute.Some? then Listed(e.traceroute.value.towards) + Listed(e.traceroute.value.back) else {}))
     - {"", BROADCAST})
  }

  function Listed(ids: seq<string>): set<string> {
    set id | id in ids
  }

  function Mentioned(stages: seq<seq<string>>): set<string> {
    if stages == [] then {} else Mentioned(stages[..|stages| - 1]) + Listed(stages[|stages| - 1])
  }

  /** The hours in which each node takes part, ascending. */
  ghost predicate NodeHours(index: map<string, seq<int>>, t: Table) {
    && (forall node :: node in index ==> index[node] != [] && Ascending(index[node]))
    && (forall node, hour :: (node in index && hour in index[node]) <==> TakesPart(t, node, hour))
  }

  /** Some event of the hour involves the node. */
  ghost predicate TakesPart(t: Table, node: string, hour: int) {
    exists id :: id in t && HourOf(t[id].importedAt) == hour && node in Participants(t[id])
  }

  // ------------------------------------------------------------ what the operations mean

  /** An hour begins at a multiple of 3600 seconds, and holds the moment. */
  lemma HourIsAligned(us: int)
    ensures HourOf(us) % 3600000000 == 0 && 0 <= us - HourOf(us) < 3600000000
  {
  }

  lemma {:induction false} MentionedIn(stages: seq<seq<string>>, node: string)
    ensures node in Mentioned(stages) <==> exists stage :: stage in stages && node in stage
  {
    if stages != [] {
      var front, last := stages[..|stages| - 1], stages[|stages| - 1];
      MentionedIn(front, node);
      assert stages == front + [last];
    }
  }

  /** A node takes part in an event as its origin, its destination, a gateway of some stage, or a node of the
      route there or back; the broadcast address never does. */
  lemma ParticipantsAre(e: Event, node: string)
    ensures node in Participants(e)
       <==> && node != "" && node != "meshtastic:!ffffffff"
            && (|| node == e.fromId || node == e.toId
                || (exists stage :: stage in e.stages && node in stage)
                || (e.traceroute.Some? && (node in e.traceroute.value.towards || node in e.traceroute.value.back)))
  {
    MentionedIn(e.stages, node);
  }

  /** After a batch an id has its last event of the batch, or what it had if the batch has none. */
  ghost predicate LastWins(before: Table, batch: seq<Event>, id: string, after: Table) {
    && ((forall e :: e in batch ==> e.id != id)
        ==> (id in after <==> id in before) && (id in before ==> after[id] == before[id]))
    && forall i :: 0 <= i < |batch| && batch[i].id == id && (forall j :: i < j < |batch| ==> batch[j].id != id) ==>
         id in after && after[id] == batch[i]
  }

  lemma {:induction false} UpsertedWithout(t: Table, batch: seq<Event>, id: string)
    requires forall e :: e in batch ==> e.id != id
    ensures (id in Upserted(t, batch) <==> id in t) && (id in t ==> Upserted(t, batch)[id] == t[id])
  {
    if batch != [] {
      UpsertedWithout(t, batch[..|batch| - 1], id);
    }
  }

  lemma {:induction false} UpsertedAt(t: Table, batch: seq<Event>, i: nat)
    requires i < |batch| && forall j :: i < j < |batch| ==> batch[j].id != batch[i].id
    ensures batch[i].id in Upserted(t, batch) && Upserted(t, batch)[batch[i].id] == batch[i]
  {
    var n := |batch| - 1;
    if i < n {
      UpsertedAt(t, batch[..n], i);
    }
  }

  lemma {:induction false} UpsertedLast(t: Table, batch: seq<Event>, id: string)
    ensures LastWins(t, batch, id, Upserted(t, batch))
  {
    if forall e :: e in batch ==> e.id != id {
      UpsertedWithout(t, batch, id);
    }
    forall i | 0 <= i < |batch| && batch[i].id == id && (forall j :: i < j < |batch| ==> batch[j].id != id)
      ensures id in Upserted(t, batch) && Upserted(t, batch)[id] == batch[i]
    {
      UpsertedAt(t, batch, i);
    }
  }

  /** By time of import, then packet id, then event id. */
  predicate ImportOrder(a: Event, b: Event) {
    && a.importedAt <= b.importedAt
    && (a.importedAt == b.importedAt ==> a.packetId <= b.packetId)
    && (a.importedAt == b.importedAt && a.packetId == b.packetId ==> LexLe(a.id, b.id))
  }

  lemma EventLeIsImportOrder(a: Event, b: Event)
    ensures EventLe(a, b) <==> ImportOrder(a, b)
  {
  }

  predicate Matches(e: Event, startUs: int, endUs: int, kind: Kind) {
    && startUs <= e.importedAt && e.importedAt < endUs
    && (match kind
        case All => true
        case TracerouteOnly => e.traceroute.Some?
        case PacketOnly => e.traceroute.None?)
  }

  /** The first matches in order, as many as the limit allows, with the number of all of them. */
  ghost predicate Answers(r: QueryResult, t: Table, startUs: int, endUs: int, limit: int, kind: Kind) {
    && r.total == |set id | id in t && Matches(t[id], startUs, endUs, kind)|
    && |r.events| == (if r.total <= limit then r.total else limit)
    && (r.truncated <==> r.total > limit)
    && DistinctIds(r.events)
    && (forall i, j :: 0 <= i < j < |r.events| ==> ImportOrder(r.events[i], r.events[j]))
    && (forall e :: e in r.events ==> e.id in t && t[e.id] == e && Matches(e, startUs, endUs, kind))
    && (forall e, id :: e in r.events && id in t && Matches(t[id], startUs, endUs, kind) && t[id] !in r.events ==>
          ImportOrder(e, t[id]))
  }

  lemma FirstAnswers(t: Table, startUs: int, endUs: int, limit: int, kind: Kind)
    requires limit >= 0
    ensures Answers(FirstOf(Enumerated(t, Wanted(startUs, endUs, kind)), limit), t, startUs, endUs, limit, kind)
  {
    var keep := Wanted(startUs, endUs, kind);
    var all := Enumerated(t, keep);
    EnumerationCounts(all, t, keep);
    assert (set id | id in t && keep(t[id])) == set id | id in t && Matches(t[id], startUs, endUs, kind);
    FirstOfOrdered(all, t, keep, limit);
  }

  lemma FirstOfOrdered(all: seq<Event>, t: Table, keep: Event -> bool, limit: nat)
    requires Enumerates(all, t, keep)
    ensures var first := FirstOf(all, limit).events;
            && DistinctIds(first)
            && (forall i, j :: 0 <= i < j < |first| ==> ImportOrder(first[i], first[j]))
            && (forall e :: e in first ==> e.id in t && t[e.id] == e && keep(e))
            && (forall e, id :: e in first && id in t && keep(t[id]) && t[id] !in first ==> ImportOrder(e, t[id]))
  {
    var first := FirstOf(all, limit).events;
    forall e | e in first ensures e in all {
      var i :| 0 <= i < |first| && first[i] == e;
      assert all[i] == e;
    }
    forall e, id | e in first && id in t && keep(t[id]) && t[id] !in first ensures ImportOrder(e, t[id]) {
      assert t[id] in all;
      var i :| 0 <= i < |first| && first[i] == e;
      var j :| 0 <= j < |all| && all[j] == t[id];
      assert j >= |first|;
      assert EventLe(all[i], all[j]);
    }
  }

  // ------------------------------------------------------------ the store

  class LiveHistoryStore {
    var events: Table

    constructor ()
      ensures events == map[]
    {
      events := map[];
    }

    /** `save_events`: nothing is written unless every event is valid. */
    method SaveEvents(batch: seq<Event>) returns (r: Result<nat, HistoryError>)
      modifies this
      ensures if forall i :: 0 <= i < |batch| ==> ValidEvent(batch[i])
              then r == Ok(|batch|) && events == Upserted(old(events), batch)
              else r == Err(InvalidEvent) && events == old(events)
      ensures r.Ok? <==> forall e :: e in batch ==> e.id != "" && e.fromId != "" && e.toId != ""
      ensures r.Ok? ==> forall id :: LastWins(old(events), batch, id, events)
    {
      forall id ensures LastWins(events, batch, id, Upserted(events, batch)) {
        UpsertedLast(events, batch, id);
      }
      for i := 0 to |batch|
        invariant forall j :: 0 <= j < i ==> ValidEvent(batch[j])
      {
        if !ValidEvent(batch[i]) {
          return Err(InvalidEvent);
        }
      }
      for i := 0 to |batch|
        invariant events == Upserted(old(events), batch[..i])
      {
        assert batch[..i + 1][..i] == batch[..i];
        events := events[batch[i].id := batch[i]];
      }
      assert batch[..|batch|] == batch;
      return Ok(|batch|);
    }

    /** `prune` */
    method Prune(referenceUs: int, retentionSeconds: int) returns (r: Result<nat, HistoryError>)
      modifies this
      ensures if retentionSeconds <= 0 then r == Err(InvalidRetention) && events == old(events)
              else events == PrunedBefore(old(events), Cutoff(referenceUs, retentionSeconds))
                   && r == Ok(|old(events)| - |events|)
      ensures retentionSeconds > 0 ==>
                forall id ::
                  && (id in events <==> && id in old(events)
                                        && referenceUs - old(events)[id].importedAt <= retentionSeconds * 1000000)
                  && (id in events ==> events[id] == old(events)[id])
    {
      if retentionSeconds <= 0 {
        return Err(InvalidRetention);
      }
      var cutoff := Cutoff(referenceUs, retentionSeconds);
      var kept := map id | id in events && events[id].importedAt >= cutoff :: events[id];
      assert |kept.Keys| <= |events.Keys| by { SubsetSize(kept.Keys, events.Keys); }
      var deleted := |events| - |kept|;
      events := kept;
      return Ok(deleted);
    }

    /** `query_events` */
    method QueryEvents(startUs: int, endUs: int, limit: int, kind: Kind) returns (r: Result<QueryResult, HistoryError>)
      ensures if startUs < 0 || endUs <= startUs then r == Err(InvalidRange)
              else if !(1 <= limit <= 5000) then r == Err(InvalidLimit)
              else r == Ok(FirstOf(Enumerated(events, Wanted(startUs, endUs, kind)), limit))
      ensures r.Ok? ==> Answers(r.value, events, startUs, endUs, limit, kind)
    {
      if startUs < 0 || endUs <= startUs {
        return Err(InvalidRange);
      }
      if !(1 <= limit <= 5000) {
        return Err(InvalidLimit);
      }
      var wanted := (e: Event) => startUs <= e.importedAt < endUs
                  && (kind.TracerouteOnly? ==> e.traceroute.Some?) && (kind.PacketOnly? ==> e.traceroute.None?);
      var all := OrderedQuery(events, wanted);
      assert Enumerates(all, events, Wanted(startUs, endUs, kind));
      EnumerationIsUnique(all, Enumerated(events, Wanted(startUs, endUs, kind)), events, Wanted(startUs, endUs, kind));
      FirstAnswers(events, startUs, endUs, limit, kind);
      var rows := if |all| <= limit then all else all[..limit];
      return Ok(QueryResult(rows, |all|, |all| > |rows|));
    }

    /** `time_bounds` */
    method TimeBounds() returns (oldest: Option<int>, newest: Option<int>)
      ensures oldest.None? <==> events == map[]
      ensures newest.None? <==> events == map[]
      ensures oldest.Some? ==> (exists id :: id in events && events[id].importedAt == oldest.value)
                               && forall id :: id in events ==> oldest.value <= events[id].importedAt
      ensures newest.Some? ==> (exists id :: id in events && events[id].importedAt == newest.value)
                               && forall id :: id in events ==> events[id].importedAt <= newest.value
    {
      oldest, newest := None, None;
      var rest := events.Keys;
      while rest != {}
        invariant rest <= events.Keys
        invariant oldest.None? <==> rest == events.Keys
        invariant newest.None? <==> rest == events.Keys
        invariant oldest.Some? ==> (exists id :: id in events && events[id].importedAt == oldest.value)
                                   && forall id :: id in events && id !in rest ==> oldest.value <= events[id].importedAt
        invariant newest.Some? ==> (exists id :: id in events && events[id].importedAt == newest.value)
                                   && forall id :: id in events && id !in rest ==> events[id].importedAt <= newest.value
        decreases rest
      {
        var id :| id in rest;
        rest := rest - {id};
        var at := events[id].importedAt;
        oldest := Some(if oldest.None? || at < oldest.value then at else oldest.value);
        newest := Some(if newest.None? || at > newest.value then at else newest.value);
      }
    }
  }

  /** SELECT ... WHERE keep ORDER BY imported_at_us, packet_id, event_id */
  method OrderedQuery(t: Table, keep: Event -> bool) returns (list: seq<Event>)
    ensures Enumerates(list, t, keep)
  {
    list := [];
    var rest := t.Keys;
    EventOrder();
    while rest != {}
      invariant rest <= t.Keys
      invariant Enumerates(list, t - rest, keep)
      decreases rest
    {
      var id :| id in rest;
      ghost var before := t - rest;
      rest := rest - {id};
      if keep(t[id]) {
        InsertEnumerates(list, before, t - rest, keep, t[id]);
        list := Insert(list, t[id], EventLe);
      }
      assert forall e: Event :: e.id in t - rest <==> e.id in before || e.id == id;
    }
    assert t - rest == t;
  }

  lemma {:induction false} InsertEnumerates(list: seq<Event>, before: Table, after: Table, keep: Event -> bool,
                                            e: Event)
    requires Enumerates(list, before, keep)
    requires e.id !in before && after == before[e.id := e] && keep(e)
    ensures Enumerates(Insert(list, e, EventLe), after, keep)
  {
    EventOrder();
    InsertSorted(list, e, EventLe);
    var r := Insert(list, e, EventLe);
    SameElements(r, list + [e]);
    InsertDistinct(list, e);
    forall f ensures f in r <==> f.id in after && after[f.id] == f && keep(f) {
      assert f in r <==> f in list + [e];
    }
  }

  lemma AppendDistinct(list: seq<Event>, e: Event)
    requires DistinctIds(list)
    requires forall f :: f in list ==> f.id != e.id
    ensures DistinctIds(list + [e])
  {
    forall i | 0 <= i < |list| ensures list[i].id != e.id { assert list[i] in list; }
  }

  lemma {:induction false} InsertDistinct(list: seq<Event>, e: Event)
    requires DistinctIds(list)
    requires forall f :: f in list ==> f.id != e.id
    ensures DistinctIds(Insert(list, e, EventLe))
  {
    if list != [] && !EventLe(list[|list| - 1], e) {
      var front, last := list[..|list| - 1], list[|list| - 1];
      assert list == front + [last];
      InsertDistinct(front, e);
      SameElements(Insert(front, e, EventLe), front + [e]);
      forall f | f in Insert(front, e, EventLe) ensures f.id != last.id {
        assert f in front + [e];
        if f in front {
          var i :| 0 <= i < |front| && front[i] == f;
          assert list[i].id != list[|list| - 1].id;
        }
      }
      AppendDistinct(Insert(front, e, EventLe), last);
    } else {
      AppendDistinct(list, e);
    }
  }

  // ------------------------------------------------------------ hour_buckets

  /** One group of the hour query. */
  function BucketOf(t: Table, hour: int): Bucket {
    var ids := set id | id in t && HourOf(t[id].importedAt) == hour;
    var traces := set id | id in t && HourOf(t[id].importedAt) == hour && t[id].traceroute.Some?;
    Bucket(hour, |ids|, |traces|)
  }

  /** `hour_buckets`: one group per hour with events, in ascending order. */
  method HourBuckets(t: Table) returns (bs: seq<Bucket>)
    ensures Buckets(bs, t)
  {
    bs := [];
    var sorted := SortedSet(HoursOf(t));
    for i := 0 to |sorted|
      invariant |bs| == i
      invariant forall j :: 0 <= j < i ==> bs[j] == BucketOf(t, sorted[j])
    {
      bs := bs + [BucketOf(t, sorted[i])];
    }
    OrderedAscends(HoursOf(t));
    GroupsAreBuckets(bs, sorted, t);
  }

  lemma GroupsAreBuckets(bs: seq<Bucket>, sorted: seq<int>, t: Table)
    requires Ascending(sorted) && forall h :: h in sorted <==> h in HoursOf(t)
    requires |bs| == |sorted| && forall i :: 0 <= i < |bs| ==> bs[i] == BucketOf(t, sorted[i])
    ensures Buckets(bs, t)
  {
    forall i | 0 <= i < |bs|
      ensures bs[i].events == |IdsOfHour(t, bs[i].start)| && bs[i].traceroutes == |TracesOfHour(t, bs[i].start)|
      ensures IdsOfHour(t, bs[i].start) != {}
    {
      assert sorted[i] in HoursOf(t);
      var id :| id in t && HourOf(t[id].importedAt) == sorted[i];
      assert id in IdsOfHour(t, sorted[i]);
    }
    forall id | id in t ensures exists i :: 0 <= i < |bs| && bs[i].start == HourOf(t[id].importedAt) {
      assert HourOf(t[id].importedAt) in HoursOf(t);
      var i :| 0 <= i < |sorted| && sorted[i] == HourOf(t[id].importedAt);
      assert bs[i].start == sorted[i];
    }
  }

  /** The hours that hold an event. */
  function HoursOf(t: Table): set<int> {
    set id | id in t :: HourOf(t[id].importedAt)
  }

  // ------------------------------------------------------------ node_hours

  type HourIndex = map<string, set<int>>

  predicate Has(index: HourIndex, node: string, hour: int) {
    node in index && hour in index[node]
  }

  predicate NoEmptyEntry(index: HourIndex) {
    forall node :: node in index ==> index[node] != {}
  }

  /** What `node_hours` has recorded after some of the events. */
  ghost predicate Recorded(index: HourIndex, t: Table) {
    NoEmptyEntry(index) && forall node, hour :: Has(index, node, hour) <==> TakesPart(t, node, hour)
  }

  /** `add` of one hour for several nodes; absent and broadcast nodes are skipped. */
  method AddAll(index: HourIndex, nodes: set<string>, hour: int) returns (after: HourIndex)
    requires NoEmptyEntry(index)
    ensures NoEmptyEntry(after)
    ensures forall node, h :: Has(after, node, h)
                         <==> Has(index, node, h) || (h == hour && node in nodes - {"", BROADCAST})
  {
    after := index;
    var rest := nodes;
    while rest != {}
      invariant rest <= nodes
      invariant NoEmptyEntry(after)
      invariant forall node, h :: Has(after, node, h)
                             <==> Has(index, node, h) || (h == hour && node in nodes - rest - {"", BROADCAST})
      decreases rest
    {
      var node :| node in rest;
      ghost var before := after;
      rest := rest - {node};
      if node != "" && node != BROADCAST {
        after := after[node := (if node in after then after[node] else {}) + {hour}];
      }
      assert forall other, h :: Has(after, other, h) <==>
        Has(before, other, h) || (h == hour && other == node && node != "" && node != BROADCAST);
    }
  }

  /** One row of `node_hours`: origin, destination, then the gateways of each stage, then both routes. */
  method RecordEvent(index: HourIndex, e: Event) returns (after: HourIndex)
    requires NoEmptyEntry(index)
    ensures NoEmptyEntry(after)
    ensures forall node, h :: Has(after, node, h)
                         <==> Has(index, node, h) || (h == HourOf(e.importedAt) && node in Participants(e))
  {
    var hour := HourOf(e.importedAt);
    after := AddAll(index, {e.fromId, e.toId}, hour);
    ghost var seen := {e.fromId, e.toId};
    for i := 0 to |e.stages|
      invariant NoEmptyEntry(after)
      invariant seen == {e.fromId, e.toId} + Mentioned(e.stages[..i])
      invariant forall node, h :: Has(after, node, h)
                             <==> Has(index, node, h) || (h == hour && node in seen - {"", BROADCAST})
    {
      assert e.stages[..i + 1][..i] == e.stages[..i];
      after := AddAll(after, Listed(e.stages[i]), hour);
      seen := seen + Listed(e.stages[i]);
    }
    assert e.stages[..|e.stages|] == e.stages;
    if e.traceroute.Some? {
      after := AddAll(after, Listed(e.traceroute.value.towards), hour);
      after := AddAll(after, Listed(e.traceroute.value.back), hour);
    }
  }

  /** `node_hours` */
  method NodeHoursOf(t: Table) returns (index: map<string, seq<int>>)
    ensures NodeHours(index, t)
  {
    var hoursOf: HourIndex := map[];
    var rest := t.Keys;
    while rest != {}
      invariant rest <= t.Keys
      invariant Recorded(hoursOf, t - rest)
      decreases rest
    {
      var id :| id in rest;
      ghost var before := t - rest;
      rest := rest - {id};
      ghost var index0 := hoursOf;
      hoursOf := RecordEvent(hoursOf, t[id]);
      RecordedMore(index0, hoursOf, before, t - rest, t[id], id);
    }
    assert t - rest == t;
    index := map[];
    var nodes := hoursOf.Keys;
    while nodes != {}
      invariant nodes <= hoursOf.Keys
      invariant index.Keys == hoursOf.Keys - nodes
      invariant forall node :: node in index ==>
                  Ascending(index[node]) && forall h :: h in index[node] <==> h in hoursOf[node]
      decreases nodes
    {
      var node :| node in nodes;
      var sorted := SortedSet(hoursOf[node]);
      OrderedAscends(hoursOf[node]);
      index := index[node := sorted];
      nodes := nodes - {node};
    }
    IndexOfRecorded(index, hoursOf, t);
  }

  lemma IndexOfRecorded(index: map<string, seq<int>>, hoursOf: HourIndex, t: Table)
    requires Recorded(hoursOf, t)
    requires index.Keys == hoursOf.Keys
    requires forall node :: node in index ==>
                  Ascending(index[node]) && forall h :: h in index[node] <==> h in hoursOf[node]
    ensures NodeHours(index, t)
  {
    forall node | node in index ensures index[node] != [] {
      NonEmpty(hoursOf[node]);
      var h :| h in hoursOf[node];
      assert h in index[node];
    }
    forall node, hour ensures (node in index && hour in index[node]) <==> TakesPart(t, node, hour) {
      assert Has(hoursOf, node, hour) <==> TakesPart(t, node, hour);
    }
  }

  lemma TakesPartMore(before: Table, more: Table, e: Event, id: string, node: string, hour: int)
    requires id !in before && more == before[id := e]
    ensures TakesPart(more, node, hour)
       <==> TakesPart(before, node, hour) || (hour == HourOf(e.importedAt) && node in Participants(e))
  {
    if TakesPart(before, node, hour) {
      var i :| i in before && HourOf(before[i].importedAt) == hour && node in Participants(before[i]);
      assert i in more && more[i] == before[i];
    }
    if hour == HourOf(e.importedAt) && node in Participants(e) {
      assert more[id] == e;
    }
    if TakesPart(more, node, hour) {
      var i :| i in more && HourOf(more[i].importedAt) == hour && node in Participants(more[i]);
      if i != id {
        assert i in before && before[i] == more[i];
      }
    }
  }

  lemma RecordedMore(index: HourIndex, after: HourIndex, before: Table, more: Table, e: Event, id: string)
    requires Recorded(index, before)
    requires id !in before && more == before[id := e]
    requires NoEmptyEntry(after)
    requires forall node, h :: Has(after, node, h)
                          <==> Has(index, node, h) || (h == HourOf(e.importedAt) && node in Participants(e))
    ensures Recorded(after, more)
  {
    forall node, hour ensures Has(after, node, hour) <==> TakesPart(more, node, hour) {
      TakesPartMore(before, more, e, id, node, hour);
      assert Has(index, node, hour) <==> TakesPart(before, node, hour);
    }
  }

  // ------------------------------------------------------------ the buckets partition the history

  /** How many events the buckets count. */
  function Counted(bs: seq<Bucket>): nat {
    if bs == [] then 0 else Counted(bs[..|bs| - 1]) + bs[|bs| - 1].events
  }

  ghost predicate Covered(hour: int, bs: seq<Bucket>) {
    exists i :: 0 <= i < |bs| && bs[i].start == hour
  }

  ghost function IdsCovered(t: Table, bs: seq<Bucket>): set<string> {
    set id | id in t && Covered(HourOf(t[id].importedAt), bs)
  }

  lemma CoveredSplit(hour: int, bs: seq<Bucket>)
    requires bs != []
    ensures Covered(hour, bs) <==> Covered(hour, bs[..|bs| - 1]) || bs[|bs| - 1].start == hour
  {
    var n := |bs| - 1;
    if Covered(hour, bs) {
      var i :| 0 <= i < |bs| && bs[i].start == hour;
      assert i < n ==> bs[..n][i].start == hour;
    }
    if Covered(hour, bs[..n]) {
      var i :| 0 <= i < n && bs[..n][i].start == hour;
      assert bs[i].start == hour;
    }
  }

  lemma IdsSplit(t: Table, bs: seq<Bucket>)
    requires bs != []
    requires forall i, j :: 0 <= i < j < |bs| ==> bs[i].start < bs[j].start
    ensures IdsCovered(t, bs) == IdsCovered(t, bs[..|bs| - 1]) + IdsOfHour(t, bs[|bs| - 1].start)
    ensures IdsCovered(t, bs[..|bs| - 1]) !! IdsOfHour(t, bs[|bs| - 1].start)
  {
    var n := |bs| - 1;
    forall id | id in t
      ensures Covered(HourOf(t[id].importedAt), bs)
         <==> Covered(HourOf(t[id].importedAt), bs[..n]) || bs[n].start == HourOf(t[id].importedAt)
    {
      CoveredSplit(HourOf(t[id].importedAt), bs);
    }
    forall hour | Covered(hour, bs[..n]) ensures hour < bs[n].start {
      var i :| 0 <= i < n && bs[..n][i].start == hour;
      assert bs[i].start < bs[n].start;
    }
  }

  lemma {:induction false} CountedIds(t: Table, bs: seq<Bucket>)
    requires forall i, j :: 0 <= i < j < |bs| ==> bs[i].start < bs[j].start
    requires forall i :: 0 <= i < |bs| ==> bs[i].events == |IdsOfHour(t, bs[i].start)|
    ensures Counted(bs) == |IdsCovered(t, bs)|
  {
    if bs == [] {
      assert IdsCovered(t, bs) == {};
    } else {
      CountedIds(t, bs[..|bs| - 1]);
      IdsSplit(t, bs);
    }
  }

  /** The counts of the hour buckets add up to the size of the table. */
  lemma {:induction false} BucketsCountEverything(bs: seq<Bucket>, t: Table)
    requires Buckets(bs, t)
    ensures Counted(bs) == |t|
  {
    CountedIds(t, bs);
    AllCovered(bs, t);
  }

  lemma {:induction false} AllCovered(bs: seq<Bucket>, t: Table)
    requires Buckets(bs, t)
    ensures IdsCovered(t, bs) == t.Keys
  {
    forall id | id in t ensures Covered(HourOf(t[id].importedAt), bs) {
      var i :| 0 <= i < |bs| && bs[i].start == HourOf(t[id].importedAt);
    }
  }

  /** The first n lists, one after another. */
  function Concat(lists: seq<seq<Event>>, n: nat): seq<Event>
    requires n <= |lists|
  {
    if n == 0 then [] else Concat(lists, n - 1) + lists[n - 1]
  }

  ghost predicate InFirstHours(e: Event, bs: seq<Bucket>, n: nat)
    requires n <= |bs|
  {
    exists i :: 0 <= i < n && HourOf(e.importedAt) == bs[i].start
  }

  ghost function FirstHours(bs: seq<Bucket>, n: nat): Event -> bool
    requires n <= |bs|
  {
    (e: Event) => InFirstHours(e, bs, n)
  }

  lemma OfHourIff(e: Event, hour: int)
    requires hour % HOUR_US == 0
    ensures OfHour(hour)(e) <==> HourOf(e.importedAt) == hour
  {
    if hour <= e.importedAt < hour + HOUR_US {
      HourIsUnique(e.importedAt, hour);
    }
  }

  /** Appending a later hour to an enumeration of earlier ones. */
  lemma JoinEnumerations(xs: seq<Event>, ys: seq<Event>, t: Table, keepX: Event -> bool, keepY: Event -> bool,
                         keep: Event -> bool)
    requires Enumerates(xs, t, keepX) && Enumerates(ys, t, keepY)
    requires forall x, y :: keepX(x) && keepY(y) ==> x.importedAt < y.importedAt
    requires forall e: Event :: e.id in t && t[e.id] == e ==> (keep(e) <==> keepX(e) || keepY(e))
    ensures Enumerates(xs + ys, t, keep)
  {
    var zs := xs + ys;
    forall i, j | 0 <= i < j < |zs| ensures EventLe(zs[i], zs[j]) && zs[i].id != zs[j].id {
      if i < |xs| && j >= |xs| {
        assert xs[i] in xs && ys[j - |xs|] in ys;
      }
    }
    assert forall e :: e in zs <==> e in xs || e in ys;
  }

  lemma OneMoreHour(bs: seq<Bucket>, t: Table, n: nat)
    requires Buckets(bs, t) && n < |bs|
    ensures forall e :: FirstHours(bs, n + 1)(e) <==> FirstHours(bs, n)(e) || OfHour(bs[n].start)(e)
    ensures forall x, y :: FirstHours(bs, n)(x) && OfHour(bs[n].start)(y) ==> x.importedAt < y.importedAt
  {
    AlignedBuckets(bs, t, n);
    forall e ensures OfHour(bs[n].start)(e) <==> HourOf(e.importedAt) == bs[n].start {
      OfHourIff(e, bs[n].start);
    }
    forall x, y | FirstHours(bs, n)(x) && OfHour(bs[n].start)(y) ensures x.importedAt < y.importedAt {
      var i :| 0 <= i < n && HourOf(x.importedAt) == bs[i].start;
      AlignedBuckets(bs, t, i);
      HoursApart(bs[i].start, bs[n].start, x.importedAt, y.importedAt);
    }
  }

  /** Each list is the query of its bucket's hour. */
  ghost predicate HourLists(lists: seq<seq<Event>>, bs: seq<Bucket>, t: Table) {
    |lists| == |bs| && forall i {:trigger HourAt(bs, i)} :: 0 <= i < |bs| ==> Enumerates(lists[i], t, HourAt(bs, i))
  }

  ghost function HourAt(bs: seq<Bucket>, i: nat): Event -> bool
    requires i < |bs|
  {
    OfHour(bs[i].start)
  }

  lemma {:induction false} HoursConcatenate(bs: seq<Bucket>, lists: seq<seq<Event>>, t: Table, n: nat)
    requires Buckets(bs, t) && HourLists(lists, bs, t)
    requires n <= |bs|
    ensures Enumerates(Concat(lists, n), t, FirstHours(bs, n))
  {
    if n == 0 {
      NoHours(bs, t);
    } else {
      HoursConcatenate(bs, lists, t, n - 1);
      HourStep(bs, lists, t, n - 1);
    }
  }

  lemma NoHours(bs: seq<Bucket>, t: Table)
    ensures Enumerates([], t, FirstHours(bs, 0))
  {
    assert forall e :: !FirstHours(bs, 0)(e);
  }

  lemma HourStep(bs: seq<Bucket>, lists: seq<seq<Event>>, t: Table, n: nat)
    requires Buckets(bs, t) && HourLists(lists, bs, t)
    requires n < |bs|
    requires Enumerates(Concat(lists, n), t, FirstHours(bs, n))
    ensures Enumerates(Concat(lists, n + 1), t, FirstHours(bs, n + 1))
  {
    assert Enumerates(lists[n], t, HourAt(bs, n));
    JoinHour(bs, Concat(lists, n), lists[n], t, n);
  }

  lemma JoinHour(bs: seq<Bucket>, xs: seq<Event>, ys: seq<Event>, t: Table, n: nat)
    requires Buckets(bs, t) && n < |bs|
    requires Enumerates(xs, t, FirstHours(bs, n)) && Enumerates(ys, t, OfHour(bs[n].start))
    ensures Enumerates(xs + ys, t, FirstHours(bs, n + 1))
  {
    OneMoreHour(bs, t, n);
    JoinEnumerations(xs, ys, t, FirstHours(bs, n), OfHour(bs[n].start), FirstHours(bs, n + 1));
  }

  lemma AlignedBuckets(bs: seq<Bucket>, t: Table, i: nat)
    requires Buckets(bs, t) && i < |bs|
    ensures bs[i].start % HOUR_US == 0
  {
    var ids := IdsOfHour(t, bs[i].start);
    var id :| id in ids;
  }

  lemma HoursApart(h: int, g: int, x: int, y: int)
    requires h % HOUR_US == 0 && g % HOUR_US == 0 && h < g
    requires HourOf(x) == h && HourOf(y) == g
    ensures x < y
  {
    assert h / HOUR_US < g / HOUR_US;
    assert h == h / HOUR_US * HOUR_US && g == g / HOUR_US * HOUR_US;
  }

  /** Concatenating the per-hour queries, bucket by bucket, is the whole history in the order
      (import time, packet id, event id). */
  lemma {:induction false} HoursMakeWhole(bs: seq<Bucket>, lists: seq<seq<Event>>, t: Table)
    requires Buckets(bs, t)
    requires HourLists(lists, bs, t)
    ensures Enumerates(Concat(lists, |bs|), t, Everything())
  {
    HoursConcatenate(bs, lists, t, |bs|);
    AllHours(bs, Concat(lists, |bs|), t);
  }

  lemma AllHours(bs: seq<Bucket>, list: seq<Event>, t: Table)
    requires Buckets(bs, t)
    requires Enumerates(list, t, FirstHours(bs, |bs|))
    ensures Enumerates(list, t, Everything())
  {
    forall e: Event | e.id in t && t[e.id] == e ensures FirstHours(bs, |bs|)(e) {
      var i :| 0 <= i < |bs| && bs[i].start == HourOf(t[e.id].importedAt);
    }
  }
}
