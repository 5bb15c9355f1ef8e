/** The observation table of the radio experiment (`experiment_store.py`). */
module ExperimentStore {
  import opened Basics
  import LiveHistory

  type Reading = LiveHistory.Reading

  datatype Channel = LongFast | NarrowFast

  /** One row of experiment_observations. */
  datatype Row = Row(eventId: string, packetId: nat, fromId: string, channel: Channel, portnum: int, importedAt: int,
                     gatewayCount: int, stageCount: int, snrs: seq<real>, rssis: seq<real>,
                     routeDiscovery: bool, telemetryTime: Option<int>, channelUtilization: Option<real>,
                     airUtilTx: Option<real>, batteryLevel: Option<real>, voltage: Option<real>,
                     uptimeSeconds: Option<real>)

  /** The table, by its primary key. */
  type Table = map<string, Row>

  // ------------------------------------------------------------ radio values

  /** The readings of all stages, in order. */
  function AllReadings(stages: seq<seq<Reading>>): seq<Reading> {
    if stages == [] then [] else AllReadings(stages[..|stages| - 1]) + stages[|stages| - 1]
  }

  /** A pair of zeros stands for no measurement. */
  predicate NoMeasurement(r: Reading) {
    r.snr == Some(0.0) && r.rssi == Some(0.0)
  }

  function Values(value: Option<real>, r: Reading): seq<real> {
    if NoMeasurement(r) || value.None? then [] else [value.value]
  }

  function Snrs(readings: seq<Reading>): seq<real> {
    if readings == [] then []
    else
      var n := |readings| - 1;
      Snrs(readings[..n]) + Values(readings[n].snr, readings[n])
  }

  function Rssis(readings: seq<Reading>): seq<real> {
    if readings == [] then []
    else
      var n := |readings| - 1;
      Rssis(readings[..n]) + Values(readings[n].rssi, readings[n])
  }

  /** A value is listed exactly when a reading other than a pair of zeros has it. */
  lemma {:induction false} ListedValues(readings: seq<Reading>)
    ensures forall v :: v in Snrs(readings) <==>
              exists r :: r in readings && r.snr == Some(v) && !(r.snr == Some(0.0) && r.rssi == Some(0.0))
    ensures forall v :: v in Rssis(readings) <==>
              exists r :: r in readings && r.rssi == Some(v) && !(r.snr == Some(0.0) && r.rssi == Some(0.0))
  {
    if readings != [] {
      var front, last := readings[..|readings| - 1], readings[|readings| - 1];
      ListedValues(front);
      assert readings == front + [last];
      forall v ensures v in Snrs(readings) <==> v in Snrs(front) || (last.snr == Some(v) && !NoMeasurement(last)) {}
      forall v ensures v in Rssis(readings) <==> v in Rssis(front) || (last.rssi == Some(v) && !NoMeasurement(last)) {}
    }
  }

  lemma {:induction false} InSomeStage(stages: seq<seq<Reading>>, r: Reading)
    ensures r in AllReadings(stages) <==> exists stage :: stage in stages && r in stage
  {
    if stages != [] {
      var front, last := stages[..|stages| - 1], stages[|stages| - 1];
      InSomeStage(front, r);
      assert stages == front + [last];
    }
  }

  /** The stages are read one after another, and of each its gateways in order. */
  lemma {:induction false} ReadingsInOrder(stages: seq<seq<Reading>>, stage: seq<Reading>, before: seq<Reading>,
                                           r: Reading)
    ensures AllReadings(stages + [stage]) == AllReadings(stages) + stage
    ensures Snrs(before + [r]) == Snrs(before) + if r.snr == None || (r.snr == Some(0.0) && r.rssi == Some(0.0))
            then [] else [r.snr.value]
    ensures Rssis(before + [r]) == Rssis(before) + if r.rssi == None || (r.snr == Some(0.0) && r.rssi == Some(0.0))
            then [] else [r.rssi.value]
    ensures AllReadings([]) == [] && Snrs([]) == Rssis([]) == []
  {
    assert (stages + [stage])[..|stages|] == stages;
    assert (before + [r])[..|before|] == before;
  }

  lemma {:induction false} OneMoreReading(before: seq<Reading>, stage: seq<Reading>, j: nat)
    requires j < |stage|
    ensures Snrs(before + stage[..j + 1]) == Snrs(before + stage[..j]) + Values(stage[j].snr, stage[j])
    ensures Rssis(before + stage[..j + 1]) == Rssis(before + stage[..j]) + Values(stage[j].rssi, stage[j])
  {
    var more := before + stage[..j + 1];
    assert more[..|more| - 1] == before + stage[..j];
  }

  /** `_radio_values` */
  method RadioValues(stages: seq<seq<Reading>>) returns (snrs: seq<real>, rssis: seq<real>)
    ensures snrs == Snrs(AllReadings(stages)) && rssis == Rssis(AllReadings(stages))
  {
    snrs, rssis := [], [];
    for i := 0 to |stages|
      invariant snrs == Snrs(AllReadings(stages[..i])) && rssis == Rssis(AllReadings(stages[..i]))
    {
      assert stages[..i + 1][..i] == stages[..i];
      snrs, rssis := StageValues(AllReadings(stages[..i]), stages[i], snrs, rssis);
    }
    assert stages[..|stages|] == stages;
  }

  /** The loop over the gateways of one stage. */
  method StageValues(ghost before: seq<Reading>, stage: seq<Reading>, snrs: seq<real>, rssis: seq<real>)
    returns (moreSnrs: seq<real>, moreRssis: seq<real>)
    requires snrs == Snrs(before) && rssis == Rssis(before)
    ensures moreSnrs == Snrs(before + stage) && moreRssis == Rssis(before + stage)
  {
    moreSnrs, moreRssis := snrs, rssis;
    assert before + stage[..0] == before;
    for j := 0 to |stage|
      invariant moreSnrs == Snrs(before + stage[..j]) && moreRssis == Rssis(before + stage[..j])
    {
      OneMoreReading(before, stage, j);
      if NoMeasurement(stage[j]) {
        continue;
      }
      if stage[j].snr.Some? {
        moreSnrs := moreSnrs + [stage[j].snr.value];
      }
      if stage[j].rssi.Some? {
        moreRssis := moreRssis + [stage[j].rssi.value];
      }
    }
    assert stage[..|stage|] == stage;
  }

  // ------------------------------------------------------------ observations

  /** Only Meshtastic events of the experiment's channels with a port are observations. */
  function ObservationOf(e: LiveHistory.Event): (r: Option<Row>)
    ensures r.Some? ==> r.value.eventId == e.id
  {
    var m := e.measures;
    if m.network != "meshtastic" || m.portnum.None? then None
    else if m.channel == "LongFast" then Some(RowOf(e, LongFast, m.portnum.value))
    else if m.channel == "NarrowFast" then Some(RowOf(e, NarrowFast, m.portnum.value))
    else None
  }

  function OrZero(n: Option<int>): int {
    if n.Some? then n.value else 0
  }

  function RowOf(e: LiveHistory.Event, channel: Channel, portnum: int): Row {
    var m := e.measures;
    var readings := AllReadings(m.readings);
    Row(e.id, e.packetId, e.fromId, channel, portnum, e.importedAt, OrZero(m.gatewayCount), OrZero(m.stageCount),
        Snrs(readings), Rssis(readings), portnum == 70, m.telemetryTime, m.channelUtilization, m.airUtilTx,
        m.batteryLevel, m.voltage, m.uptimeSeconds)
  }

  /** Which events are observations, and what the row of one holds: a radio value is listed for the kind of
      value it is, counts that are missing are zero, and port 70 is route discovery. */
  lemma {:induction false} ObservationTells(e: LiveHistory.Event)
    ensures ObservationOf(e).Some?
       <==> e.measures.network == "meshtastic" && e.measures.portnum.Some?
            && e.measures.channel in ["LongFast", "NarrowFast"]
    ensures ObservationOf(e).Some?
        ==> TellsEvent(ObservationOf(e).value, e) && TellsMeasures(ObservationOf(e).value, e.measures)
  {
    var readings := AllReadings(e.measures.readings);
    ListedValues(readings);
    forall r ensures r in readings <==> exists stage :: stage in e.measures.readings && r in stage {
      InSomeStage(e.measures.readings, r);
    }
  }

  predicate TellsEvent(row: Row, e: LiveHistory.Event) {
    && row.eventId == e.id && row.packetId == e.packetId && row.fromId == e.fromId && row.importedAt == e.importedAt
    && (row.channel == LongFast <==> e.measures.channel == "LongFast")
    && (row.channel == NarrowFast <==> e.measures.channel == "NarrowFast")
  }

  ghost predicate TellsMeasures(row: Row, m: LiveHistory.Measures) {
    && m.portnum == Some(row.portnum) && (row.routeDiscovery <==> row.portnum == 70)
    && (m.gatewayCount == Some(row.gatewayCount) || (m.gatewayCount == None && row.gatewayCount == 0))
    && (m.stageCount == Some(row.stageCount) || (m.stageCount == None && row.stageCount == 0))
    && (forall v :: v in row.snrs <==> exists stage, r :: && stage in m.readings && r in stage && r.snr == Some(v)
                                                           && !(r.snr == Some(0.0) && r.rssi == Some(0.0)))
    && (forall v :: v in row.rssis <==> exists stage, r :: && stage in m.readings && r in stage && r.rssi == Some(v)
                                                            && !(r.snr == Some(0.0) && r.rssi == Some(0.0)))
    && row.telemetryTime == m.telemetryTime
    && row.channelUtilization == m.channelUtilization && row.airUtilTx == m.airUtilTx
    && row.batteryLevel == m.batteryLevel && row.voltage == m.voltage && row.uptimeSeconds == m.uptimeSeconds
  }

  /** `observation_from_event` */
  method ObservationFromEvent(e: LiveHistory.Event) returns (r: Option<Row>)
    ensures r == ObservationOf(e)
  {
    var m := e.measures;
    if m.network != "meshtastic" {
      return None;
    }
    if m.channel != "LongFast" && m.channel != "NarrowFast" {
      return None;
    }
    if m.portnum.None? {
      return None;
    }
    var snrs, rssis := RadioValues(m.readings);
    return Some(Row(e.id, e.packetId, e.fromId, if m.channel == "LongFast" then LongFast else NarrowFast,
                    m.portnum.value, e.importedAt, OrZero(m.gatewayCount), OrZero(m.stageCount), snrs, rssis,
                    m.portnum.value == 70, m.telemetryTime, m.channelUtilization, m.airUtilTx,
                    m.batteryLevel, m.voltage, m.uptimeSeconds));
  }

  function Observations(events: seq<LiveHistory.Event>): seq<Row> {
    if events == [] then []
    else
      var n := |events| - 1;
      Observations(events[..n]) + (var o := ObservationOf(events[n]); if o.Some? then [o.value] else [])
  }

  function StoredAll(t: Table, rows: seq<Row>): Table {
    if rows == [] then t
    else
      var n := |rows| - 1;
      StoredAll(t, rows[..n])[rows[n].eventId := rows[n]]
  }

  /** How many ids of the later table were not in the earlier one. */
  ghost function NewIds(t: Table, after: Table): nat {
    |after.Keys - t.Keys|
  }

  /** How many upserts find no row of their id. */
  ghost function Misses(t: Table, rows: seq<Row>): nat {
    if rows == [] then 0
    else
      var n := |rows| - 1;
      Misses(t, rows[..n]) + if rows[n].eventId in StoredAll(t, rows[..n]) then 0 else 1
  }

  /** `store_observations`: upserts one by one and counts the ids that were not there before. */
  method StoreObservations(t: Table, rows: seq<Row>) returns (after: Table, inserted: nat)
    ensures after == StoredAll(t, rows)
    ensures inserted == NewIds(t, after)
    ensures inserted == |set id | id in after && id !in t|
    ensures StoringTells(t, rows, after)
  {
    after := t;
    inserted := 0;
    for i := 0 to |rows|
      invariant after == StoredAll(t, rows[..i])
      invariant inserted == Misses(t, rows[..i])
    {
      assert rows[..i + 1][..i] == rows[..i];
      var existed := rows[i].eventId in after;
      after := after[rows[i].eventId := rows[i]];
      if !existed {
        inserted := inserted + 1;
      }
    }
    assert rows[..|rows|] == rows;
    MissesAreNewIds(t, rows);
    assert after.Keys - t.Keys == set id | id in after && id !in t;
    StoredTells(t, rows);
  }

  /** After storing: the last row of each id of the batch, and every other row as it was. */
  ghost predicate StoringTells(t: Table, rows: seq<Row>, after: Table) {
    (forall i :: StoresLast(after, rows, i)) && (forall id :: KeepsOther(t, after, rows, id))
  }

  ghost predicate StoresLast(after: Table, rows: seq<Row>, i: nat) {
    i < |rows| && (forall j :: i < j < |rows| ==> rows[j].eventId != rows[i].eventId) ==>
      rows[i].eventId in after && after[rows[i].eventId] == rows[i]
  }

  ghost predicate KeepsOther(t: Table, after: Table, rows: seq<Row>, id: string) {
    (forall r :: r in rows ==> r.eventId != id) ==> (id in after <==> id in t) && (id in t ==> after[id] == t[id])
  }

  lemma {:induction false} StoredTells(t: Table, rows: seq<Row>)
    ensures StoringTells(t, rows, StoredAll(t, rows))
  {
    var after := StoredAll(t, rows);
    forall i ensures StoresLast(after, rows, i) {
      LastIsStored(t, rows, i);
    }
    forall id ensures KeepsOther(t, after, rows, id) {
      OthersStay(t, rows, id);
    }
  }

  lemma {:induction false} LastIsStored(t: Table, rows: seq<Row>, i: nat)
    ensures StoresLast(StoredAll(t, rows), rows, i)
  {
    var n := |rows| - 1;
    if i < n {
      LastIsStored(t, rows[..n], i);
    }
  }

  lemma {:induction false} OthersStay(t: Table, rows: seq<Row>, id: string)
    ensures KeepsOther(t, StoredAll(t, rows), rows, id)
  {
    if rows != [] {
      OthersStay(t, rows[..|rows| - 1], id);
    }
  }

  lemma {:induction false} MissesAreNewIds(t: Table, rows: seq<Row>)
    ensures Misses(t, rows) == NewIds(t, StoredAll(t, rows))
    ensures t.Keys <= StoredAll(t, rows).Keys
  {
    if rows != [] {
      var n := |rows| - 1;
      MissesAreNewIds(t, rows[..n]);
      Gains(t.Keys, StoredAll(t, rows[..n]).Keys, rows[n].eventId);
    }
  }

  lemma Gains(base: set<string>, before: set<string>, id: string)
    requires base <= before
    ensures |(before + {id}) - base| == |before - base| + if id in before then 0 else 1
  {
    if id in before {
      assert before + {id} == before;
    } else {
      assert (before + {id}) - base == (before - base) + {id};
    }
  }

  /** `store_live_document` */
  method StoreLiveDocument(t: Table, events: seq<LiveHistory.Event>) returns (after: Table, inserted: nat)
    ensures after == StoredAll(t, Observations(events))
    ensures inserted == NewIds(t, after)
  {
    var rows: seq<Row> := [];
    for i := 0 to |events|
      invariant rows == Observations(events[..i])
    {
      assert events[..i + 1][..i] == events[..i];
      var o := ObservationFromEvent(events[i]);
      if o.Some? {
        rows := rows + [o.value];
      }
    }
    assert events[..|events|] == events;
    after, inserted := StoreObservations(t, rows);
  }

  // ------------------------------------------------------------ what a stored document leaves

  /** No event of the document with this id is an observation. */
  ghost predicate Unobserved(doc: seq<LiveHistory.Event>, id: string) {
    forall e :: e in doc && e.id == id ==> ObservationOf(e).None?
  }

  ghost predicate Holds(after: Table, t: Table, doc: seq<LiveHistory.Event>) {
    && (forall e :: e in doc && ObservationOf(e).Some? ==> e.id in after && after[e.id] == ObservationOf(e).value)
    && (forall id :: Unobserved(doc, id) ==> (id in after <==> id in t) && (id in t ==> after[id] == t[id]))
  }

  /** The table after one more event is stored. */
  function StoredEvent(t: Table, e: LiveHistory.Event): Table {
    var o := ObservationOf(e);
    if o.Some? then t[e.id := o.value] else t
  }

  lemma {:induction false} StoredStep(t: Table, front: seq<LiveHistory.Event>, last: LiveHistory.Event)
    ensures StoredAll(t, Observations(front + [last])) == StoredEvent(StoredAll(t, Observations(front)), last)
  {
    assert (front + [last])[..|front|] == front;
    var o := ObservationOf(last);
    if o.Some? {
      var rows := Observations(front) + [o.value];
      assert rows[..|rows| - 1] == Observations(front);
    } else {
      assert Observations(front) + [] == Observations(front);
    }
  }

  lemma HoldsMore(after: Table, t: Table, front: seq<LiveHistory.Event>, last: LiveHistory.Event)
    requires Holds(after, t, front)
    requires forall e :: e in front ==> e.id != last.id
    ensures Holds(StoredEvent(after, last), t, front + [last])
  {
    var doc, more := front + [last], StoredEvent(after, last);
    forall e | e in doc && ObservationOf(e).Some? ensures e.id in more && more[e.id] == ObservationOf(e).value {
      assert e in front || e == last;
    }
    forall id | Unobserved(doc, id) ensures (id in more <==> id in t) && (id in t ==> more[id] == t[id]) {
      assert Unobserved(front, id) by {
        forall e | e in front && e.id == id ensures ObservationOf(e).None? { assert e in doc; }
      }
      assert last in doc;
    }
  }

  /** Storing events whose ids are distinct: each observed event's row is its observation, every other
      row is as it was. */
  lemma {:induction false} StoredRows(t: Table, events: seq<LiveHistory.Event>)
    requires LiveHistory.DistinctIds(events)
    ensures Holds(StoredAll(t, Observations(events)), t, events)
  {
    if events != [] {
      var n := |events| - 1;
      var front, last := events[..n], events[n];
      StoredRows(t, front);
      assert events == front + [last];
      forall e | e in front ensures e.id != last.id {
        var i :| 0 <= i < |front| && front[i] == e;
        assert events[i].id != events[n].id;
      }
      StoredStep(t, front, last);
      HoldsMore(StoredAll(t, Observations(front)), t, front, last);
    }
  }

  /** Storing a document twice is storing it once, also when other documents with the same events are
      stored in between: only the last document of an id matters. */
  lemma {:induction false} RepeatedDocument(t: Table, first: seq<LiveHistory.Event>, second: seq<LiveHistory.Event>)
    requires LiveHistory.DistinctIds(first) && LiveHistory.DistinctIds(second)
    requires forall e :: e in first ==> e in second
    ensures StoredAll(StoredAll(t, Observations(first)), Observations(second)) == StoredAll(t, Observations(second))
  {
    var between := StoredAll(t, Observations(first));
    StoredRows(t, first);
    StoredRows(t, second);
    StoredRows(between, second);
    SameRows(StoredAll(t, Observations(second)), StoredAll(between, Observations(second)), t, between, second);
  }

  /** Two tables that hold the document's observations, and elsewhere what two tables held that
      differ at most in observed events of the document, are equal. */
  lemma SameRows(once: Table, twice: Table, t: Table, between: Table, doc: seq<LiveHistory.Event>)
    requires Holds(once, t, doc) && Holds(twice, between, doc)
    requires forall id :: Unobserved(doc, id) ==> (id in between <==> id in t) && (id in t ==> between[id] == t[id])
    ensures once == twice
  {
    forall id ensures (id in once <==> id in twice) && (id in once ==> once[id] == twice[id]) {
      if !Unobserved(doc, id) {
        var e :| e in doc && e.id == id && ObservationOf(e).Some?;
      }
    }
    assert once.Keys == twice.Keys;
  }
}
