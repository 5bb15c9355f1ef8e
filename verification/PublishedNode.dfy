/** What the node that `merge_observations` publishes says of the rows it was made from, whatever their order
    (`domain.py`). */
module PublishedNode {
  import opened Basics
  import opened Ordering
  import opened Consolidation

  /** Of two rows of the same time the one of this source counts as the newer: malha_pt, ozulo_map,
      meshcore_map and meshcore_hub rank in this order. */
  predicate Outranks(a: Source, b: Source) {
    match a
    case MalhaPt => false
    case OzuloMap => b.MalhaPt?
    case MeshcoreMap => b.MalhaPt? || b.OzuloMap?
    case MeshcoreHub => !b.MeshcoreHub?
  }

  predicate Newer(a: Observation, b: Observation) {
    a.observedAt > b.observedAt || (a.observedAt == b.observedAt && Outranks(a.source, b.source))
  }

  lemma NoLaterIsNotNewer(a: Observation, b: Observation)
    ensures NoLater(a, b) <==> !Newer(a, b)
  {
  }

  // ------------------------------------------------------------ what a node says

  predicate ShowsIdentity(node: Node, received: seq<Observation>) {
    forall o :: o in received ==> node.network == o.network && node.id == NodeId(o.network, o.sourceId)
  }

  /** The last sighting is the latest row; the first one is the least of the first sightings that the rows
      report, a row that reports none counting by its own time. */
  ghost predicate ShowsTimes(node: Node, received: seq<Observation>) {
    && (exists o :: o in received && node.lastSeen == o.observedAt)
    && (forall o :: o in received ==> o.observedAt <= node.lastSeen)
    && (exists o :: o in received && (o.firstSeen == Some(node.firstSeen)
                                      || (o.firstSeen == None && o.observedAt == node.firstSeen)))
    && (forall o :: o in received ==> if o.firstSeen.Some? then node.firstSeen <= o.firstSeen.value
                                      else node.firstSeen <= o.observedAt)
  }

  /** The position is that of some row, and no row has one updated later, or at the same time and observed later;
      of rows equal in both the source of least rank prevails. */
  ghost predicate ShowsPosition(node: Node, received: seq<Observation>) {
    && (node.position.None? <==> forall o :: o in received ==> o.position.None?)
    && (node.position.Some? ==> exists o :: o in received && o.position == node.position && NewestUpdate(o, received))
  }

  predicate NewestUpdate(o: Observation, received: seq<Observation>)
    requires o.position.Some?
  {
    forall other :: other in received && other.position.Some? ==>
      && other.position.value.updatedAt <= o.position.value.updatedAt
      && (other.position.value.updatedAt == o.position.value.updatedAt ==>
            && other.observedAt <= o.observedAt
            && (other.observedAt == o.observedAt ==> !Outranks(o.source, other.source)))
  }

  /** Each field has the value of a row that has one, and no newer row has one. */
  ghost predicate ShowsValues(node: Node, received: seq<Observation>) {
    forall f: Field ::
      && (f in node.values <==> exists o :: o in received && f in o.values)
      && (f in node.values ==>
            exists o :: && o in received && f in o.values && node.values[f] == o.values[f]
                        && forall other :: other in received && f in other.values ==> !Newer(other, o))
  }

  /** Each source with a row is listed once, in rank, with the node's source id and the time of its latest row. */
  ghost predicate ShowsSources(node: Node, received: seq<Observation>) {
    && (forall s :: s in node.sources <==> exists o :: o in received && o.source == s)
    && (forall i, j :: 0 <= i < j < |node.sources| ==> Outranks(node.sources[j], node.sources[i]))
    && (forall s :: (s in node.sourceIds <==> s in node.sources) && (s in node.sourceLastSeen <==> s in node.sources))
    && (forall s :: s in node.sourceIds ==> node.sourceIds[s] == node.id.sourceId)
    && (forall s :: s in node.sourceLastSeen ==>
          && (exists o :: o in received && o.source == s && o.observedAt == node.sourceLastSeen[s])
          && forall o :: o in received && o.source == s ==> o.observedAt <= node.sourceLastSeen[s])
  }

  predicate ShowsStatus(node: Node, now: int, settings: Settings) {
    var age := now - node.lastSeen;
    && (node.status == Active <==> age <= settings.activeHours * 60 * 60)
    && (node.status == Recent <==> settings.activeHours * 60 * 60 < age <= settings.recentDays * 24 * 60 * 60)
    && (node.status == Historical <==> && settings.activeHours * 60 * 60 < age
                                       && settings.recentDays * 24 * 60 * 60 < age
                                       && age <= settings.historicalDays * 24 * 60 * 60)
  }

  ghost predicate Shows(node: Node, received: seq<Observation>, now: int, settings: Settings) {
    && ShowsIdentity(node, received) && ShowsTimes(node, received) && ShowsPosition(node, received)
    && ShowsValues(node, received) && ShowsSources(node, received) && ShowsStatus(node, now, settings)
  }

  /** All rows are of one node. */
  predicate SameNode(received: seq<Observation>) {
    forall a, b :: a in received && b in received ==> a.network == b.network && a.sourceId == b.sourceId
  }

  predicate GoodSettings(settings: Settings) {
    settings.activeHours >= 1 && settings.recentDays >= 1 && settings.historicalDays >= settings.recentDays
  }

  /** The row is older than every limit. */
  predicate TooOld(o: Observation, now: int, settings: Settings) {
    && now - o.observedAt > settings.activeHours * 60 * 60
    && now - o.observedAt > settings.recentDays * 24 * 60 * 60
    && now - o.observedAt > settings.historicalDays * 24 * 60 * 60
  }

  /** What consolidation returns, for any rows: why they are refused, nothing when all rows are too old, or a
      node that shows them. */
  lemma MergeShowsTheRows(received: seq<Observation>, now: int, settings: Settings)
    ensures var r := Merge(received, now, settings);
            && (r == Err(NoObservations) <==> received == [])
            && (r == Err(DifferentNodes) <==> !SameNode(received))
            && (r == Err(InvalidSettings) <==> received != [] && SameNode(received) && !GoodSettings(settings))
            && (r == Ok(None) <==> && received != [] && SameNode(received) && GoodSettings(settings)
                                   && forall o :: o in received ==> TooOld(o, now, settings))
            && (r.Ok? && r.value.Some? ==> Shows(r.value.value, received, now, settings))
  {
    if received != [] {
      OneNodeIff(received);
      MergeOfNode(received, now, settings);
      SortArranges(received);
      if OneNode(received) {
        OrderedOutcome(received, StableSort(received, NoLater), now, settings, Merge(received, now, settings));
      }
    }
  }

  lemma {:induction false} SortArranges(received: seq<Observation>)
    requires received != []
    ensures Arranged(received, StableSort(received, NoLater))
  {
    SameElements(received, StableSort(received, NoLater));
    NoLaterIsPreorder();
    SortSorts(received, NoLater);
  }

  /** The outcome for rows of one node. */
  lemma OrderedOutcome(received: seq<Observation>, ordered: seq<Observation>, now: int, settings: Settings,
                       r: Result<Option<Node>, MergeError>)
    requires Arranged(received, ordered) && OneNode(received) && received != []
    requires r == MergeOrdered(ordered, now, settings)
    ensures r == Err(InvalidSettings) <==> !GoodSettings(settings)
    ensures r == Ok(None) <==> GoodSettings(settings) && forall o :: o in received ==> TooOld(o, now, settings)
    ensures r.Err? ==> r == Err(InvalidSettings)
    ensures r.Ok? && r.value.Some? ==> Shows(r.value.value, received, now, settings)
  {
    var last := ordered[|ordered| - 1];
    assert last in received;
    forall o | o in received ensures o.observedAt <= last.observedAt {
      var i :| 0 <= i < |ordered| && ordered[i] == o;
      assert i < |ordered| - 1 ==> NoLater(o, last);
    }
    var status := ClassifyTemporalStatus(last.observedAt, now, settings);
    if GoodSettings(settings) && status.value.Some? {
      OrderedShows(received, ordered, now, settings, status.value.value);
    }
  }

  lemma OneNodeIff(received: seq<Observation>)
    requires received != []
    ensures OneNode(received) <==> SameNode(received)
  {
    assert received[0] in received;
    if OneNode(received) {
      forall a, b | a in received && b in received ensures a.network == b.network && a.sourceId == b.sourceId {
        assert a.Id() == received[0].Id() && b.Id() == received[0].Id();
      }
    }
  }

  /** The rows and their sorted arrangement. */
  ghost predicate Arranged(received: seq<Observation>, ordered: seq<Observation>) {
    && ordered != [] && Sorted(ordered, NoLater)
    && forall o :: o in ordered <==> o in received
  }

  lemma OrderedShows(received: seq<Observation>, ordered: seq<Observation>, now: int, settings: Settings,
                     status: Temporal)
    requires Arranged(received, ordered) && OneNode(received) && received != [] && GoodSettings(settings)
    requires ClassifyTemporalStatus(ordered[|ordered| - 1].observedAt, now, settings) == Ok(Some(status))
    ensures Shows(NodeOf(ordered, status), received, now, settings)
  {
    var node := NodeOf(ordered, status);
    SomethingChosen(ordered);
    assert ordered[|ordered| - 1] in received;
    IdentityShown(received, node);
    TimesShown(received, ordered, node);
    PositionShown(received, ordered, node);
    ValuesShown(received, ordered, node);
    SourcesShown(received, ordered, node);
    StatusShown(node, now, settings);
  }

  lemma StatusShown(node: Node, now: int, settings: Settings)
    requires GoodSettings(settings)
    requires ClassifyTemporalStatus(node.lastSeen, now, settings) == Ok(Some(node.status))
    ensures ShowsStatus(node, now, settings)
  {
  }

  lemma IdentityShown(received: seq<Observation>, node: Node)
    requires OneNode(received) && received != []
    requires exists last :: last in received && node.id == last.Id() && node.network == last.network
    ensures ShowsIdentity(node, received)
  {
    var last :| last in received && node.id == last.Id() && node.network == last.network;
    forall o | o in received ensures o.Id() == last.Id() {
      assert o.Id() == received[0].Id() && last.Id() == received[0].Id();
    }
  }

  lemma TimesShown(received: seq<Observation>, ordered: seq<Observation>, node: Node)
    requires Arranged(received, ordered)
    requires node.lastSeen == ordered[|ordered| - 1].observedAt
    requires Chosen(EarliestSeen, ordered).Some? && node.firstSeen == Chosen(EarliestSeen, ordered).value.Seen()
    ensures ShowsTimes(node, received)
  {
    var n := |ordered| - 1;
    assert ordered[n] in received;
    ChoiceIsBest(EarliestSeen, ordered);
    var k := Choice(EarliestSeen, ordered).value;
    assert ordered[k] in received;
    forall o | o in received ensures o.observedAt <= node.lastSeen && node.firstSeen <= o.Seen() {
      var i :| 0 <= i < |ordered| && ordered[i] == o;
      assert i < n ==> NoLater(ordered[i], ordered[n]);
    }
  }

  lemma PositionShown(received: seq<Observation>, ordered: seq<Observation>, node: Node)
    requires Arranged(received, ordered)
    requires var newest := Chosen(NewestPosition, ordered);
             node.position == if newest.Some? then newest.value.position else None
    ensures ShowsPosition(node, received)
  {
    ChoiceIsBest(NewestPosition, ordered);
    var choice := Choice(NewestPosition, ordered);
    if choice.Some? {
      var o := ordered[choice.value];
      assert o in received && o.position == node.position;
      forall other | other in received && other.position.Some?
        ensures other.position.value.updatedAt <= o.position.value.updatedAt
        ensures other.position.value.updatedAt == o.position.value.updatedAt ==>
                  && other.observedAt <= o.observedAt
                  && (other.observedAt == o.observedAt ==> !Outranks(o.source, other.source))
      {
        var i :| 0 <= i < |ordered| && ordered[i] == other;
        assert Eligible(NewestPosition, ordered[i]);
        assert i > choice.value ==> NoLater(o, other);
      }
      assert NewestUpdate(o, received);
    } else {
      forall o | o in received ensures o.position.None? {
        var i :| 0 <= i < |ordered| && ordered[i] == o;
      }
    }
  }

  lemma ValuesShown(received: seq<Observation>, ordered: seq<Observation>, node: Node)
    requires Arranged(received, ordered) && node.values == FieldsOf(ordered)
    ensures ShowsValues(node, received)
  {
    forall f: Field
      ensures f in node.values <==> exists o :: o in received && f in o.values
      ensures f in node.values ==>
                exists o :: && o in received && f in o.values && node.values[f] == o.values[f]
                            && forall other :: other in received && f in other.values ==> !Newer(other, o)
    {
      ValueShown(received, ordered, f);
    }
  }

  lemma ValueShown(received: seq<Observation>, ordered: seq<Observation>, f: Field)
    requires Arranged(received, ordered)
    ensures FieldValue(ordered, f).Some? <==> exists o :: o in received && f in o.values
    ensures FieldValue(ordered, f).Some? ==>
              exists o :: && o in received && f in o.values && FieldValue(ordered, f) == Some(o.values[f])
                          && forall other :: other in received && f in other.values ==> !Newer(other, o)
  {
    ChoiceIsBest(LatestValue(f), ordered);
    var choice := Choice(LatestValue(f), ordered);
    if choice.Some? {
      var o := ordered[choice.value];
      assert o in received;
      forall other | other in received && f in other.values ensures !Newer(other, o) {
        var i :| 0 <= i < |ordered| && ordered[i] == other;
        assert Eligible(LatestValue(f), ordered[i]);
        if i < choice.value {
          assert NoLater(ordered[i], o);
        }
      }
    } else {
      forall o | o in received ensures f !in o.values {
        var i :| 0 <= i < |ordered| && ordered[i] == o;
      }
    }
  }

  // ------------------------------------------------------------ the sources

  lemma {:induction false} SourcesOfElements(ordered: seq<Observation>, listed: seq<Source>)
    ensures forall s :: s in SourcesOf(ordered, listed) <==> s in listed && Chosen(LatestOf(s), ordered).Some?
  {
    if listed != [] {
      var n := |listed| - 1;
      SourcesOfElements(ordered, listed[..n]);
      assert listed == listed[..n] + [listed[n]];
    }
  }

  predicate InRank(sources: seq<Source>) {
    forall i, j :: 0 <= i < j < |sources| ==> Outranks(sources[j], sources[i])
  }

  lemma {:induction false} SourcesOfInRank(ordered: seq<Observation>, listed: seq<Source>)
    requires InRank(listed)
    ensures InRank(SourcesOf(ordered, listed))
  {
    if listed != [] {
      var n := |listed| - 1;
      SourcesOfInRank(ordered, listed[..n]);
      SourcesOfElements(ordered, listed[..n]);
      var front := SourcesOf(ordered, listed[..n]);
      forall i | 0 <= i < |front| ensures Outranks(listed[n], front[i]) {
        assert front[i] in listed[..n];
        var k :| 0 <= k < n && listed[..n][k] == front[i];
        assert Outranks(listed[n], listed[k]);
      }
    }
  }

  lemma LatestRowOfSource(received: seq<Observation>, ordered: seq<Observation>, s: Source)
    requires Arranged(received, ordered)
    ensures Chosen(LatestOf(s), ordered).Some? <==> exists o :: o in received && o.source == s
    ensures Chosen(LatestOf(s), ordered).Some? ==>
              var latest := Chosen(LatestOf(s), ordered).value;
              && latest in received && latest.source == s
              && forall o :: o in received && o.source == s ==> o.observedAt <= latest.observedAt
  {
    ChoiceIsBest(LatestOf(s), ordered);
    var choice := Choice(LatestOf(s), ordered);
    if choice.Some? {
      var latest := ordered[choice.value];
      assert latest in received;
      forall o | o in received && o.source == s ensures o.observedAt <= latest.observedAt {
        var i :| 0 <= i < |ordered| && ordered[i] == o;
        assert Eligible(LatestOf(s), ordered[i]);
        if i < choice.value {
          assert NoLater(ordered[i], latest);
        }
      }
    } else {
      forall o | o in received ensures o.source != s {
        var i :| 0 <= i < |ordered| && ordered[i] == o;
      }
    }
  }

  lemma {:induction false} SourcesShown(received: seq<Observation>, ordered: seq<Observation>, node: Node)
    requires Arranged(received, ordered) && ShowsIdentity(node, received)
    requires node.sources == SourcesOf(ordered, SOURCES)
    requires node.sourceIds == SourceIds(ordered) && node.sourceLastSeen == SourceTimes(ordered)
    ensures ShowsSources(node, received)
  {
    SourcesOfElements(ordered, SOURCES);
    assert InRank(SOURCES);
    SourcesOfInRank(ordered, SOURCES);
    forall s: Source ensures s in SOURCES && (s in node.sources <==> exists o :: o in received && o.source == s) {
      assert SOURCES[SourceOrder(s)] == s;
      LatestRowOfSource(received, ordered, s);
    }
    forall s | s in node.sourceIds ensures node.sourceIds[s] == node.id.sourceId {
      LatestRowOfSource(received, ordered, s);
    }
    forall s | s in node.sourceLastSeen
      ensures exists o :: o in received && o.source == s && o.observedAt == node.sourceLastSeen[s]
      ensures forall o :: o in received && o.source == s ==> o.observedAt <= node.sourceLastSeen[s]
    {
      LatestRowOfSource(received, ordered, s);
    }
  }
}
