/** Pruning against consolidation: what the retention limit removes is what consolidation no longer shows. */
module Retention {
  import opened Basics
  import opened Ordering
  import Consolidation
  import Tables = ObservationTables

  type Observation = Consolidation.Observation
  type NodeTable = Tables.Table<Observation, ()>

  function KeyOf(o: Observation): Tables.Key {
    Tables.Key(Tables.Item(o.source, o.Id().Text()), o.observedAt)
  }

  /** The rows of the node, each once, in some order. */
  ghost predicate Lists(xs: seq<Observation>, t: NodeTable, id: Consolidation.NodeId) {
    && Consolidation.DistinctKeys(xs)
    && forall o :: o in xs <==> o.Id() == id && KeyOf(o) in t.rows && t.rows[KeyOf(o)].value == o
  }

  /** The last time a list of rows holds. */
  lemma {:induction false} LatestTime(xs: seq<Observation>)
    requires xs != []
    ensures var ordered := StableSort(xs, Consolidation.NoLater);
            && ordered != [] && ordered[|ordered| - 1] in xs
            && forall o :: o in xs ==> o.observedAt <= ordered[|ordered| - 1].observedAt
  {
    var ordered := StableSort(xs, Consolidation.NoLater);
    SameElements(xs, ordered);
    Consolidation.NoLaterIsPreorder();
    SortSorts(xs, Consolidation.NoLater);
    LastIsGreatest(ordered, Consolidation.NoLater);
  }

  /** The part of a consolidated node that its newest row alone decides. */
  ghost predicate SeenAs(r: Result<Option<Consolidation.Node>, Consolidation.MergeError>, lastSeen: int, now: int,
                         settings: Consolidation.Settings, id: Consolidation.NodeId)
  {
    match Consolidation.ClassifyTemporalStatus(lastSeen, now, settings)
    case Err(e) => r == Err(e)
    case Ok(None) => r == Ok(None)
    case Ok(Some(status)) =>
      r.Ok? && r.value.Some? && r.value.value.lastSeen == lastSeen && r.value.value.status == status
      && r.value.value.id == id
  }

  lemma {:induction false} MergeSeesLatest(xs: seq<Observation>, id: Consolidation.NodeId, now: int,
                                           settings: Consolidation.Settings)
    requires xs != [] && forall o :: o in xs ==> o.Id() == id
    ensures StableSort(xs, Consolidation.NoLater) != []
    ensures var ordered := StableSort(xs, Consolidation.NoLater);
            SeenAs(Consolidation.Merge(xs, now, settings), ordered[|ordered| - 1].observedAt, now, settings, id)
  {
    LatestTime(xs);
    var ordered := StableSort(xs, Consolidation.NoLater);
    Consolidation.MergeOfNode(xs, now, settings);
    Consolidation.SomethingChosen(ordered);
    assert ordered[|ordered| - 1].Id() == id;
    assert Consolidation.OneNode(xs) by { assert xs[0] in xs; }
  }

  /** The rows of a node after pruning. */
  lemma PrunedRows(t: NodeTable, id: Consolidation.NodeId, xs: seq<Observation>, ys: seq<Observation>, before: int)
    requires Lists(xs, t, id) && Lists(ys, Tables.Pruned(t, before), id)
    ensures forall o :: o in ys <==> o in xs && o.observedAt >= before
  {
    var pruned := Tables.Pruned(t, before);
    forall o ensures o in ys <==> o in xs && o.observedAt >= before {
      assert o in xs <==> o.Id() == id && KeyOf(o) in t.rows && t.rows[KeyOf(o)].value == o;
      assert o in ys <==> o.Id() == id && KeyOf(o) in pruned.rows && pruned.rows[KeyOf(o)].value == o;
    }
  }

  /** Consolidation drops a node last seen then. */
  predicate Expires(lastSeen: int, now: int, settings: Consolidation.Settings) {
    Consolidation.ClassifyTemporalStatus(lastSeen, now, settings) == Ok(None)
  }

  lemma ExpiresIff(lastSeen: int, now: int, settings: Consolidation.Settings)
    requires settings.Valid()
    ensures Expires(lastSeen, now, settings)
       <==> lastSeen < now - settings.historicalDays * 86400 && lastSeen < now - settings.activeHours * 3600
  {
  }

  /** Expired, historical, recent, active. */
  function Freshness(status: Option<Consolidation.Temporal>): nat {
    match status
    case None => 0
    case Some(Historical) => 1
    case Some(Recent) => 2
    case Some(Active) => 3
  }

  /** Active stays active, recent does not become historical, and what is shown stays shown. */
  predicate NoOlder(before: Option<Consolidation.Temporal>, after: Option<Consolidation.Temporal>) {
    && (before == Some(Consolidation.Active) ==> after == Some(Consolidation.Active))
    && (before == Some(Consolidation.Recent) ==>
          after == Some(Consolidation.Active) || after == Some(Consolidation.Recent))
    && (before != None ==> after != None)
  }

  lemma FresherIsNoOlder(before: Option<Consolidation.Temporal>, after: Option<Consolidation.Temporal>)
    ensures Freshness(before) <= Freshness(after) <==> NoOlder(before, after)
  {
  }

  /** A later sighting, or an earlier clock, never makes a node look older; a node seen at that very
      moment or later is active. */
  lemma LaterSightingIsNoOlder(lastSeen: int, later: int, now: int, earlier: int, settings: Consolidation.Settings)
    requires settings.Valid() && lastSeen <= later && earlier <= now
    ensures Freshness(Consolidation.ClassifyTemporalStatus(lastSeen, now, settings).value)
         <= Freshness(Consolidation.ClassifyTemporalStatus(later, earlier, settings).value)
    ensures now <= lastSeen
        ==> Consolidation.ClassifyTemporalStatus(lastSeen, now, settings) == Ok(Some(Consolidation.Active))
  {
  }

  /** The expiry of consolidation is the limit of pruning exactly when the active window is no longer
      than the historical one.  `Settings.from_env` guarantees that; the checks of
      `classify_temporal_status` alone do not. */
  lemma ExpiryIsPruningLimitIff(settings: Consolidation.Settings)
    requires settings.Valid()
    ensures (forall lastSeen, now ::
               Expires(lastSeen, now, settings) <==> lastSeen < now - settings.historicalDays * 86400)
       <==> settings.activeHours <= settings.historicalDays * 24
  {
    forall lastSeen, now
      ensures Expires(lastSeen, now, settings)
         <==> lastSeen < now - settings.historicalDays * 86400 && lastSeen < now - settings.activeHours * 3600
    {
      ExpiresIff(lastSeen, now, settings);
    }
    if settings.activeHours > settings.historicalDays * 24 {
      // a node last seen just before the pruning limit is still active
      var lastSeen := -settings.historicalDays * 86400 - 1;
      assert !Expires(lastSeen, 0, settings);
    }
  }

  lemma OneNodeSeen(xs: seq<Observation>, id: Consolidation.NodeId, now: int, settings: Consolidation.Settings)
    returns (lastSeen: int)
    requires xs != [] && forall o :: o in xs ==> o.Id() == id
    ensures SeenAs(Consolidation.Merge(xs, now, settings), lastSeen, now, settings, id)
    ensures (exists o :: o in xs && o.observedAt == lastSeen) && forall o :: o in xs ==> o.observedAt <= lastSeen
  {
    LatestTime(xs);
    MergeSeesLatest(xs, id, now, settings);
    var ordered := StableSort(xs, Consolidation.NoLater);
    lastSeen := ordered[|ordered| - 1].observedAt;
  }

  /** The status that a consolidation shows, if it shows a node. */
  ghost function StatusOf(r: Result<Option<Consolidation.Node>, Consolidation.MergeError>)
    : Option<Consolidation.Temporal>
  {
    if r.Ok? && r.value.Some? then Some(r.value.value.status) else None
  }

  /** More rows of a node, whatever they say, and an earlier clock never make it look older or drop it. */
  lemma {:induction false} MoreRowsLookNoOlder(xs: seq<Observation>, ys: seq<Observation>, id: Consolidation.NodeId,
                                               now: int, earlier: int, settings: Consolidation.Settings)
    requires settings.Valid() && earlier <= now
    requires xs != [] && forall o :: o in xs ==> o in ys
    requires forall o :: o in ys ==> o.Id() == id
    ensures Consolidation.Merge(xs, now, settings).Ok? && Consolidation.Merge(ys, earlier, settings).Ok?
    ensures Freshness(StatusOf(Consolidation.Merge(xs, now, settings)))
         <= Freshness(StatusOf(Consolidation.Merge(ys, earlier, settings)))
    ensures NoOlder(StatusOf(Consolidation.Merge(xs, now, settings)),
                    StatusOf(Consolidation.Merge(ys, earlier, settings)))
  {
    assert xs[0] in ys;
    var lastSeen := OneNodeSeen(xs, id, now, settings);
    var later := OneNodeSeen(ys, id, earlier, settings);
    var fewer, more := Consolidation.Merge(xs, now, settings), Consolidation.Merge(ys, earlier, settings);
    StatusSeen(fewer, lastSeen, now, settings, id);
    StatusSeen(more, later, earlier, settings, id);
    LaterSightingIsNoOlder(lastSeen, later, now, earlier, settings);
    FresherIsNoOlder(StatusOf(fewer), StatusOf(more));
  }

  lemma StatusSeen(r: Result<Option<Consolidation.Node>, Consolidation.MergeError>, lastSeen: int, now: int,
                   settings: Consolidation.Settings, id: Consolidation.NodeId)
    requires settings.Valid() && SeenAs(r, lastSeen, now, settings, id)
    ensures r.Ok? && StatusOf(r) == Consolidation.ClassifyTemporalStatus(lastSeen, now, settings).value
  {
  }

  /** What pruning at `before` leaves of a list of rows, as consolidation sees it. */
  lemma PrunedConsolidation(xs: seq<Observation>, ys: seq<Observation>, id: Consolidation.NodeId, before: int,
                            now: int, settings: Consolidation.Settings) returns (lastSeen: int)
    requires xs != [] && forall o :: o in xs ==> o.Id() == id
    requires forall o :: o in ys <==> o in xs && o.observedAt >= before
    ensures SeenAs(Consolidation.Merge(xs, now, settings), lastSeen, now, settings, id)
    ensures ys == [] <==> lastSeen < before
    ensures ys != [] ==> SeenAs(Consolidation.Merge(ys, now, settings), lastSeen, now, settings, id)
  {
    lastSeen := OneNodeSeen(xs, id, now, settings);
    if ys != [] {
      assert ys[0] in ys;
      var again := OneNodeSeen(ys, id, now, settings);
      assert again == lastSeen;
    }
  }

  /** Pruning at `now - historical_days` removes all rows of exactly the nodes that consolidation at
      that `now` leaves out as expired; every other node keeps its last sighting and its
      active/recent/historical status. */
  lemma PruneRemovesExactlyTheExpired(t: NodeTable, id: Consolidation.NodeId, xs: seq<Observation>,
                                      ys: seq<Observation>, now: int, settings: Consolidation.Settings)
    requires settings.Valid() && settings.activeHours <= settings.historicalDays * 24
    requires xs != [] && Lists(xs, t, id)
    requires Lists(ys, Tables.Pruned(t, now - settings.historicalDays * 86400), id)
    ensures Consolidation.Merge(xs, now, settings) == Ok(None) <==> ys == []
    ensures ys != [] ==> exists lastSeen, status ::
              && IsShown(Consolidation.Merge(xs, now, settings), id, lastSeen, status)
              && IsShown(Consolidation.Merge(ys, now, settings), id, lastSeen, status)
  {
    var before := now - settings.historicalDays * 86400;
    PrunedRows(t, id, xs, ys, before);
    var lastSeen := PrunedConsolidation(xs, ys, id, before, now, settings);
    ExpiresIff(lastSeen, now, settings);
    if ys != [] {
      var status := Consolidation.ClassifyTemporalStatus(lastSeen, now, settings).value.value;
      assert IsShown(Consolidation.Merge(xs, now, settings), id, lastSeen, status);
      assert IsShown(Consolidation.Merge(ys, now, settings), id, lastSeen, status);
    }
  }

  /** The node is shown with this last sighting and status. */
  ghost predicate IsShown(r: Result<Option<Consolidation.Node>, Consolidation.MergeError>, id: Consolidation.NodeId,
                          lastSeen: int, status: Consolidation.Temporal)
  {
    r.Ok? && r.value.Some? && r.value.value.id == id && r.value.value.lastSeen == lastSeen
    && r.value.value.status == status
  }
}
