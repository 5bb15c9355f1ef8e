/** The sliding window of the live document (`live_pipeline.py`). */
module LiveWindow {
  import opened Basics
  import opened Ordering
  import opened Texts
  import opened LiveHistory

  const WINDOW_SECONDS: int := 60 * 60

  /** The sort key (imported_at_us, packet_id, from_id). */
  predicate LiveLe(a: Event, b: Event) {
    || a.importedAt < b.importedAt
    || (a.importedAt == b.importedAt && (
        || a.packetId < b.packetId
        || (a.packetId == b.packetId && LexLe(a.fromId, b.fromId))))
  }

  lemma LiveOrder()
    ensures TotalPreorder(LiveLe)
    ensures forall a, b :: LiveLe(a, b) && LiveLe(b, a) ==> a.packetId == b.packetId && a.fromId == b.fromId
  {
    LexIsTotalOrder();
    assert forall a, b :: LiveLe(a, b) || LiveLe(b, a);
    assert forall a, b, c :: LiveLe(a, b) && LiveLe(b, c) ==> LiveLe(a, c);
  }

  /** The id of a live packet is made of its packet id and its origin. */
  predicate Identified(events: seq<Event>) {
    forall a, b :: a in events && b in events && a.packetId == b.packetId && a.fromId == b.fromId ==> a.id == b.id
  }

  // ------------------------------------------------------------ events_by_id

  /** Where a dictionary that keeps insertion order holds an id. */
  function Find(d: seq<Event>, id: string): (r: Option<nat>)
    ensures r.Some? ==> r.value < |d| && d[r.value].id == id
    ensures r.None? ==> forall i :: 0 <= i < |d| ==> d[i].id != id
  {
    if d == [] then None
    else if d[|d| - 1].id == id then Some(|d| - 1)
    else Find(d[..|d| - 1], id)
  }

  /** Assigning to a key: an existing entry keeps its place. */
  function Put(d: seq<Event>, e: Event): seq<Event> {
    var i := Find(d, e.id);
    if i.Some? then d[i.value := e] else d + [e]
  }

  function PutAll(d: seq<Event>, events: seq<Event>, cutoffUs: int): seq<Event> {
    if events == [] then d
    else
      var front, last := PutAll(d, events[..|events| - 1], cutoffUs), events[|events| - 1];
      if last.importedAt < cutoffUs then front else Put(front, last)
  }

  /** The events of `merge_live_documents`: the previous document, then the current one, windowed. */
  function Merged(previous: seq<Event>, current: seq<Event>, cutoffUs: int): seq<Event> {
    StableSort(PutAll(PutAll([], previous, cutoffUs), current, cutoffUs), LiveLe)
  }

  datatype MergeProblem = MissingEventId | InvalidWindow

  predicate HasIds(events: seq<Event>) {
    forall i :: 0 <= i < |events| ==> events[i].id != ""
  }

  /** The events of a document that may not exist yet. */
  function EventsOf(document: Option<seq<Event>>): seq<Event> {
    if document.Some? then document.value else []
  }

  /** `merge_live_documents` */
  method MergeLiveDocuments(previous: Option<seq<Event>>, current: seq<Event>, generatedUs: int, retentionSeconds: int)
    returns (r: Result<seq<Event>, MergeProblem>)
    ensures retentionSeconds <= 0 ==> r == Err(InvalidWindow)
    ensures retentionSeconds > 0 ==>
              if HasIds(EventsOf(previous)) && HasIds(current)
              then r == Ok(Merged(EventsOf(previous), current, Cutoff(generatedUs, retentionSeconds)))
              else r == Err(MissingEventId)
    ensures r.Ok? <==> && retentionSeconds > 0
                       && (previous.Some? ==> forall e :: e in previous.value ==> e.id != "")
                       && forall e :: e in current ==> e.id != ""
    ensures r.Ok? ==> TellsWindow(r.value, EventsOf(previous), current, generatedUs, retentionSeconds)
  {
    MergedTellsWindow(EventsOf(previous), current, generatedUs, retentionSeconds);
    if retentionSeconds <= 0 {
      return Err(InvalidWindow);
    }
    var cutoff := Cutoff(generatedUs, retentionSeconds);
    var byId: seq<Event> := [];
    if previous.Some? {
      var ok;
      byId, ok := Overwrite(byId, previous.value, cutoff);
      if !ok {
        return Err(MissingEventId);
      }
    }
    var ok;
    byId, ok := Overwrite(byId, current, cutoff);
    if !ok {
      return Err(MissingEventId);
    }
    return Ok(StableSort(byId, LiveLe));
  }

  /** The inner loop over one document. */
  method Overwrite(byId: seq<Event>, events: seq<Event>, cutoffUs: int) returns (after: seq<Event>, ok: bool)
    ensures ok <==> HasIds(events)
    ensures ok ==> after == PutAll(byId, events, cutoffUs)
  {
    after := byId;
    for i := 0 to |events|
      invariant HasIds(events[..i])
      invariant after == PutAll(byId, events[..i], cutoffUs)
    {
      assert events[..i + 1][..i] == events[..i];
      if events[i].id == "" {
        return after, false;
      }
      if events[i].importedAt < cutoffUs {
        continue;
      }
      after := Put(after, events[i]);
    }
    assert events[..|events|] == events;
    ok := true;
  }

  // ------------------------------------------------------------ last versions

  /** The last version of an id in a list of events. */
  function LastVersion(events: seq<Event>, id: string): (r: Option<Event>)
    ensures r.Some? ==> r.value.id == id && r.value in events
  {
    if events == [] then None
    else if events[|events| - 1].id == id then Some(events[|events| - 1])
    else LastVersion(events[..|events| - 1], id)
  }

  /** The last version of an id among the events that are recent enough. */
  function LastRecent(events: seq<Event>, id: string, cutoffUs: int): Option<Event> {
    if events == [] then None
    else
      var last := events[|events| - 1];
      if last.id == id && last.importedAt >= cutoffUs then Some(last)
      else LastRecent(events[..|events| - 1], id, cutoffUs)
  }

  /** Import times per id do not decrease along the list. */
  predicate ImportsAscend(events: seq<Event>) {
    forall i, j ::
      0 <= i < j < |events| && events[i].id == events[j].id ==> events[i].importedAt <= events[j].importedAt
  }

  lemma PutHolds(d: seq<Event>, e: Event)
    requires DistinctIds(d)
    ensures DistinctIds(Put(d, e))
    ensures forall f :: f in Put(d, e) <==> f == e || (f in d && f.id != e.id)
  {
    var r := Put(d, e);
    var i := Find(d, e.id);
    if i.Some? {
      forall f ensures f in r <==> f == e || (f in d && f.id != e.id) {
        if f in r {
          var j :| 0 <= j < |r| && r[j] == f;
          if j != i.value { assert d[j] == f && d[j].id != d[i.value].id; }
        }
        if f == e { assert r[i.value] == f; }
        if f in d && f.id != e.id {
          var j :| 0 <= j < |d| && d[j] == f;
          assert r[j] == f;
        }
      }
    }
  }

  /** After assigning the recent events of a list, the dictionary holds the last recent version of
      each listed id, and otherwise what it held. */
  lemma {:induction false} PutAllHolds(d: seq<Event>, events: seq<Event>, cutoffUs: int)
    requires DistinctIds(d)
    ensures DistinctIds(PutAll(d, events, cutoffUs))
    ensures forall f :: f in PutAll(d, events, cutoffUs)
                   <==> LastRecent(events, f.id, cutoffUs) == Some(f)
                        || (LastRecent(events, f.id, cutoffUs).None? && f in d)
  {
    if events != [] {
      var front, last := events[..|events| - 1], events[|events| - 1];
      PutAllHolds(d, front, cutoffUs);
      if last.importedAt >= cutoffUs {
        PutHolds(PutAll(d, front, cutoffUs), last);
      }
    }
  }

  lemma {:induction false} RecentIsLast(events: seq<Event>, id: string, cutoffUs: int)
    requires ImportsAscend(events)
    ensures LastRecent(events, id, cutoffUs)
         == (var last := LastVersion(events, id);
             if last.Some? && last.value.importedAt >= cutoffUs then last else None)
  {
    if events != [] {
      var front, last := events[..|events| - 1], events[|events| - 1];
      RecentIsLast(front, id, cutoffUs);
      if last.id == id && last.importedAt < cutoffUs {
        var before := LastVersion(front, id);
        if before.Some? {
          var i :| 0 <= i < |front| && front[i] == before.value;
          assert events[i].id == events[|events| - 1].id;
        }
      }
    }
  }

  // ------------------------------------------------------------ the window

  /** The window over a list of events: in order, for each id its last version, if it is recent enough. */
  ghost predicate IsWindow(w: seq<Event>, events: seq<Event>, cutoffUs: int) {
    && Sorted(w, LiveLe) && DistinctIds(w)
    && forall e :: e in w <==> LastVersion(events, e.id) == Some(e) && e.importedAt >= cutoffUs
  }

  /** Two ordered lists of the same events, each id once, are equal. */
  lemma OrderedListIsUnique(v: seq<Event>, w: seq<Event>, events: seq<Event>)
    requires Sorted(v, LiveLe) && DistinctIds(v)
    requires Sorted(w, LiveLe) && DistinctIds(w)
    requires forall e :: e in v <==> e in w
    requires Identified(events) && forall e :: e in v ==> e in events
    ensures v == w
  {
    DistinctSameSet(v, w);
    LiveOrder();
    forall x, y | x in v && y in v && LiveLe(x, y) && LiveLe(y, x) ensures x == y {
      assert x.id == y.id;
    }
    SortedIsUnique(v, w, LiveLe);
  }

  lemma {:induction false} LastVersionConcat(xs: seq<Event>, ys: seq<Event>, id: string)
    ensures LastVersion(xs + ys, id) == if LastVersion(ys, id).Some? then LastVersion(ys, id) else LastVersion(xs, id)
  {
    if ys == [] {
      assert xs + ys == xs;
    } else {
      assert (xs + ys)[..|xs + ys| - 1] == xs + ys[..|ys| - 1];
      LastVersionConcat(xs, ys[..|ys| - 1], id);
    }
  }

  lemma SubImportsAscend(xs: seq<Event>, ys: seq<Event>)
    requires ImportsAscend(xs + ys)
    ensures ImportsAscend(xs) && ImportsAscend(ys)
    ensures forall x, y :: x in xs && y in ys && x.id == y.id ==> x.importedAt <= y.importedAt
  {
    var zs := xs + ys;
    assert forall i :: 0 <= i < |xs| ==> zs[i] == xs[i];
    assert forall i :: 0 <= i < |ys| ==> zs[|xs| + i] == ys[i];
    forall i, j | 0 <= i < j < |ys| && ys[i].id == ys[j].id ensures ys[i].importedAt <= ys[j].importedAt {
      assert zs[|xs| + i].id == zs[|xs| + j].id;
    }
    forall x, y | x in xs && y in ys && x.id == y.id ensures x.importedAt <= y.importedAt {
      var i :| 0 <= i < |xs| && xs[i] == x;
      var j :| 0 <= j < |ys| && ys[j] == y;
      assert zs[i].id == zs[|xs| + j].id;
    }
  }

  lemma {:induction false} DistinctIdsAscend(w: seq<Event>)
    requires DistinctIds(w)
    ensures ImportsAscend(w)
    ensures forall e :: e in w ==> LastVersion(w, e.id) == Some(e)
  {
    if w != [] {
      var front, last := w[..|w| - 1], w[|w| - 1];
      DistinctIdsAscend(front);
      forall e | e in w ensures LastVersion(w, e.id) == Some(e) {
        if e != last {
          var i :| 0 <= i < |w| && w[i] == e;
          assert front[i] == e;
          assert w[i].id != w[|w| - 1].id;
        }
      }
    }
  }

  /** What the merged document holds: the last recent current version of an id, else the previous one
      if it is still recent. */
  lemma {:induction false} MergedHolds(previous: seq<Event>, current: seq<Event>, cutoffUs: int)
    requires DistinctIds(previous)
    ensures var w := Merged(previous, current, cutoffUs);
            && Sorted(w, LiveLe) && DistinctIds(w)
            && forall e :: e in w <==> || LastRecent(current, e.id, cutoffUs) == Some(e)
                                       || (&& LastRecent(current, e.id, cutoffUs).None?
                                           && e in previous && e.importedAt >= cutoffUs)
  {
    var first := PutAll([], previous, cutoffUs);
    var second := PutAll(first, current, cutoffUs);
    PutAllHolds([], previous, cutoffUs);
    PutAllHolds(first, current, cutoffUs);
    DistinctIdsAscend(previous);
    LiveOrder();
    SortSorts(second, LiveLe);
    var w := StableSort(second, LiveLe);
    SameElements(second, w);
    SortDistinct(second, w);
    forall e
      ensures e in w <==> || LastRecent(current, e.id, cutoffUs) == Some(e)
                          || (LastRecent(current, e.id, cutoffUs).None? && e in previous && e.importedAt >= cutoffUs)
    {
      RecentIsLast(previous, e.id, cutoffUs);
    }
  }

  /** The merged document holds every recent event of the current one. */
  lemma {:induction false} WindowTakesRecent(previous: seq<Event>, current: seq<Event>, cutoffUs: int)
    requires DistinctIds(previous) && DistinctIds(current)
    ensures forall e :: e in current && e.importedAt >= cutoffUs ==> e in Merged(previous, current, cutoffUs)
  {
    MergedHolds(previous, current, cutoffUs);
    DistinctIdsAscend(current);
    forall e | e in current && e.importedAt >= cutoffUs ensures e in Merged(previous, current, cutoffUs) {
      RecentIsLast(current, e.id, cutoffUs);
    }
  }

  /** A permutation of events with distinct ids has distinct ids. */
  lemma SortDistinct(xs: seq<Event>, ys: seq<Event>)
    requires multiset(xs) == multiset(ys)
    requires DistinctIds(xs)
    ensures DistinctIds(ys)
  {
    SameElements(xs, ys);
    forall i, j | 0 <= i < j < |ys| ensures ys[i].id != ys[j].id {
      assert ys[i] in xs && ys[j] in xs;
      if ys[i] == ys[j] {
        TwiceInMultiset(ys, i, j);
        CountInDistinct(xs, ys[i]);
        assert false;
      }
      var k :| 0 <= k < |xs| && xs[k] == ys[i];
      var m :| 0 <= m < |xs| && xs[m] == ys[j];
    }
  }

  /** One more batch: the window over everything before it, merged with it, is the window over
      everything up to it. */
  lemma MergeExtendsWindow(previous: seq<Event>, seen: seq<Event>, current: seq<Event>, before: int, cutoffUs: int)
    requires IsWindow(previous, seen, before) && before <= cutoffUs
    requires ImportsAscend(seen + current)
    ensures IsWindow(Merged(previous, current, cutoffUs), seen + current, cutoffUs)
  {
    SubImportsAscend(seen, current);
    MergedHolds(previous, current, cutoffUs);
    var w := Merged(previous, current, cutoffUs);
    forall e ensures e in w <==> LastVersion(seen + current, e.id) == Some(e) && e.importedAt >= cutoffUs {
      LastVersionConcat(seen, current, e.id);
      RecentIsLast(current, e.id, cutoffUs);
      if e in previous && LastVersion(current, e.id).Some? {
        assert e in seen;
      }
    }
  }

  // ------------------------------------------------------------ any sequence of batches

  datatype Batch = Batch(events: seq<Event>, cutoffUs: int)

  /** The live document after the batches, merged one at a time. */
  function Folded(batches: seq<Batch>): seq<Event> {
    if batches == [] then []
    else
      var n := |batches| - 1;
      Merged(Folded(batches[..n]), batches[n].events, batches[n].cutoffUs)
  }

  function AllEvents(batches: seq<Batch>): seq<Event> {
    if batches == [] then [] else AllEvents(batches[..|batches| - 1]) + batches[|batches| - 1].events
  }

  // ------------------------------------------------------------ occurrences

  predicate Occurs(batches: seq<Batch>, k: int, i: int) {
    0 <= k < |batches| && 0 <= i < |batches[k].events|
  }

  /** The event with index `i` of batch `k`. */
  function At(batches: seq<Batch>, k: int, i: int): Event
    requires Occurs(batches, k, i)
  {
    batches[k].events[i]
  }

  /** The occurrence (m, j) is a later one of the event id at (k, i). */
  predicate LaterSame(batches: seq<Batch>, k: int, i: int, m: int, j: int)
    requires Occurs(batches, k, i)
  {
    && Occurs(batches, m, j)
    && (k < m || (k == m && i < j))
    && At(batches, m, j).id == At(batches, k, i).id
  }

  /** The last occurrence of its id at or after a cutoff. */
  ghost predicate LastSince(batches: seq<Batch>, k: int, i: int, cutoffUs: int)
    requires Occurs(batches, k, i)
  {
    && At(batches, k, i).importedAt >= cutoffUs
    && forall m, j :: LaterSame(batches, k, i, m, j) ==> At(batches, m, j).importedAt < cutoffUs
  }

  /** No cutoff from its own batch on drops it, and each later occurrence of its id is older than the
      cutoff of the batch that brings it. */
  ghost predicate Stays(batches: seq<Batch>, k: int, i: int)
    requires Occurs(batches, k, i)
  {
    && (forall m :: k <= m < |batches| ==> At(batches, k, i).importedAt >= batches[m].cutoffUs)
    && forall m, j :: LaterSame(batches, k, i, m, j) ==> At(batches, m, j).importedAt < batches[m].cutoffUs
  }

  /** The last recent version of an id, by its index. */
  lemma {:induction false} LastRecentIndex(events: seq<Event>, id: string, cutoffUs: int) returns (i: int)
    ensures var r := LastRecent(events, id, cutoffUs);
            if i < 0
            then r.None? && forall j :: 0 <= j < |events| && events[j].id == id ==> events[j].importedAt < cutoffUs
            else && i < |events| && r == Some(events[i]) && events[i].id == id && events[i].importedAt >= cutoffUs
                 && forall j :: i < j < |events| && events[j].id == id ==> events[j].importedAt < cutoffUs
  {
    if events == [] {
      i := -1;
    } else {
      var n := |events| - 1;
      if events[n].id == id && events[n].importedAt >= cutoffUs {
        i := n;
      } else {
        i := LastRecentIndex(events[..n], id, cutoffUs);
      }
    }
  }

  /** What stays after the last batch: its own last recent versions, and what stayed before and is
      neither too old for it nor overwritten by it. */
  lemma StaysInLast(batches: seq<Batch>, i: int)
    requires batches != [] && Occurs(batches, |batches| - 1, i)
    ensures var n := |batches| - 1;
            var v := At(batches, n, i);
            Stays(batches, n, i) ==> LastRecent(batches[n].events, v.id, batches[n].cutoffUs) == Some(v)
  {
    var n := |batches| - 1;
    var v := At(batches, n, i);
    if Stays(batches, n, i) {
      var l := LastRecentIndex(batches[n].events, v.id, batches[n].cutoffUs);
      assert !LaterSame(batches, n, i, n, l);
    }
  }

  lemma LastStays(batches: seq<Batch>, e: Event) returns (i: int)
    requires batches != []
    requires var last := batches[|batches| - 1];
             LastRecent(last.events, e.id, last.cutoffUs) == Some(e)
    ensures Occurs(batches, |batches| - 1, i) && At(batches, |batches| - 1, i) == e && Stays(batches, |batches| - 1, i)
  {
    var n := |batches| - 1;
    i := LastRecentIndex(batches[n].events, e.id, batches[n].cutoffUs);
  }

  lemma StaysFromFront(batches: seq<Batch>, k: int, i: int)
    requires batches != [] && Occurs(batches[..|batches| - 1], k, i)
    ensures var n := |batches| - 1;
            var v := At(batches, k, i);
            Stays(batches, k, i) <==> && Stays(batches[..n], k, i) && v.importedAt >= batches[n].cutoffUs
                                      && LastRecent(batches[n].events, v.id, batches[n].cutoffUs).None?
  {
    var n := |batches| - 1;
    var front, v := batches[..n], At(batches, k, i);
    var l := LastRecentIndex(batches[n].events, v.id, batches[n].cutoffUs);
    if l >= 0 {
      assert LaterSame(batches, k, i, n, l);
    }
    if Stays(batches, k, i) {
      forall m, j | LaterSame(front, k, i, m, j) ensures At(front, m, j).importedAt < front[m].cutoffUs {
        assert LaterSame(batches, k, i, m, j);
      }
    }
    if Stays(front, k, i) && v.importedAt >= batches[n].cutoffUs && l < 0 {
      forall m, j | LaterSame(batches, k, i, m, j) ensures At(batches, m, j).importedAt < batches[m].cutoffUs {
        if m < n {
          assert LaterSame(front, k, i, m, j);
        }
      }
    }
  }

  /** Merging step by step holds exactly the occurrences that stay. */
  lemma {:induction false} FoldHoldsWhatStays(batches: seq<Batch>)
    ensures Sorted(Folded(batches), LiveLe) && DistinctIds(Folded(batches))
    ensures forall e :: e in Folded(batches)
                   <==> exists k, i :: Occurs(batches, k, i) && At(batches, k, i) == e && Stays(batches, k, i)
  {
    if batches != [] {
      var n := |batches| - 1;
      var front, last := batches[..n], batches[n];
      FoldHoldsWhatStays(front);
      MergedHolds(Folded(front), last.events, last.cutoffUs);
      forall e
        ensures e in Folded(batches)
           <==> exists k, i :: Occurs(batches, k, i) && At(batches, k, i) == e && Stays(batches, k, i)
      {
        FoldHoldsStep(batches, e);
      }
    }
  }

  lemma FoldHoldsStep(batches: seq<Batch>, e: Event)
    requires batches != []
    requires var front := batches[..|batches| - 1];
             e in Folded(front) <==> exists k, i :: Occurs(front, k, i) && At(front, k, i) == e && Stays(front, k, i)
    requires var last := batches[|batches| - 1];
             e in Folded(batches) <==> || LastRecent(last.events, e.id, last.cutoffUs) == Some(e)
                                       || (&& LastRecent(last.events, e.id, last.cutoffUs).None?
                                           && e in Folded(batches[..|batches| - 1]) && e.importedAt >= last.cutoffUs)
    ensures e in Folded(batches)
       <==> exists k, i :: Occurs(batches, k, i) && At(batches, k, i) == e && Stays(batches, k, i)
  {
    var n := |batches| - 1;
    var front, last := batches[..n], batches[n];
    if e in Folded(batches) {
      if LastRecent(last.events, e.id, last.cutoffUs) == Some(e) {
        var i := LastStays(batches, e);
      } else {
        var k, i :| Occurs(front, k, i) && At(front, k, i) == e && Stays(front, k, i);
        StaysFromFront(batches, k, i);
      }
    }
    if k, i :| Occurs(batches, k, i) && At(batches, k, i) == e && Stays(batches, k, i) {
      if k == n {
        StaysInLast(batches, i);
      } else {
        StaysFromFront(batches, k, i);
        assert Occurs(front, k, i) && At(front, k, i) == e;
      }
    }
  }

  // ------------------------------------------------------------ one windowing

  lemma {:induction false} LastRecentConcat(xs: seq<Event>, ys: seq<Event>, id: string, cutoffUs: int)
    ensures LastRecent(xs + ys, id, cutoffUs)
         == if LastRecent(ys, id, cutoffUs).Some? then LastRecent(ys, id, cutoffUs) else LastRecent(xs, id, cutoffUs)
  {
    if ys == [] {
      assert xs + ys == xs;
    } else {
      assert (xs + ys)[..|xs + ys| - 1] == xs + ys[..|ys| - 1];
      LastRecentConcat(xs, ys[..|ys| - 1], id, cutoffUs);
    }
  }

  /** Windowing all batches at once holds exactly the last occurrences since the cutoff. */
  lemma {:induction false} LastRecentOccurs(batches: seq<Batch>, e: Event, cutoffUs: int)
    ensures LastRecent(AllEvents(batches), e.id, cutoffUs) == Some(e)
       <==> exists k, i :: Occurs(batches, k, i) && At(batches, k, i) == e && LastSince(batches, k, i, cutoffUs)
  {
    if batches != [] {
      var n := |batches| - 1;
      var front, last := batches[..n], batches[n];
      LastRecentOccurs(front, e, cutoffUs);
      LastRecentConcat(AllEvents(front), last.events, e.id, cutoffUs);
      var l := LastRecentIndex(last.events, e.id, cutoffUs);
      if LastRecent(AllEvents(batches), e.id, cutoffUs) == Some(e) {
        if l >= 0 {
          assert LastSince(batches, n, l, cutoffUs);
        } else {
          var k, i :| Occurs(front, k, i) && At(front, k, i) == e && LastSince(front, k, i, cutoffUs);
          LastSinceFront(batches, k, i, cutoffUs);
        }
      }
      if k, i :| Occurs(batches, k, i) && At(batches, k, i) == e && LastSince(batches, k, i, cutoffUs) {
        if l >= 0 {
          assert !LaterSame(batches, k, i, n, l);
          assert k == n && l == i;
        } else {
          assert k < n;
          LastSinceFront(batches, k, i, cutoffUs);
          assert Occurs(front, k, i) && At(front, k, i) == e;
        }
      }
    }
  }

  lemma {:induction false} LastSinceFront(batches: seq<Batch>, k: int, i: int, cutoffUs: int)
    requires batches != [] && Occurs(batches[..|batches| - 1], k, i)
    requires LastRecent(batches[|batches| - 1].events, At(batches, k, i).id, cutoffUs).None?
    ensures LastSince(batches, k, i, cutoffUs) <==> LastSince(batches[..|batches| - 1], k, i, cutoffUs)
  {
    var n := |batches| - 1;
    var front := batches[..n];
    var l := LastRecentIndex(batches[n].events, At(batches, k, i).id, cutoffUs);
    if LastSince(batches, k, i, cutoffUs) {
      forall m, j | LaterSame(front, k, i, m, j) ensures At(front, m, j).importedAt < cutoffUs {
        assert LaterSame(batches, k, i, m, j);
      }
    }
    if LastSince(front, k, i, cutoffUs) {
      forall m, j | LaterSame(batches, k, i, m, j) ensures At(batches, m, j).importedAt < cutoffUs {
        if m < n {
          assert LaterSame(front, k, i, m, j);
        }
      }
    }
  }

  lemma {:induction false} OccursInAll(batches: seq<Batch>, k: int, i: int)
    requires Occurs(batches, k, i)
    ensures At(batches, k, i) in AllEvents(batches)
  {
    if k < |batches| - 1 {
      OccursInAll(batches[..|batches| - 1], k, i);
    }
  }

  // ------------------------------------------------------------ when the two agree

  /** For each id, its last occurrence since the last cutoff stays through the merging. */
  ghost predicate LastOnesStay(batches: seq<Batch>)
    requires batches != []
  {
    forall k, i :: Occurs(batches, k, i) && LastSince(batches, k, i, batches[|batches| - 1].cutoffUs)
                   ==> Stays(batches, k, i)
  }

  /** Exactly when merging any sequence of batches one at a time gives the same list as windowing all
      of them at once at the last cutoff. */
  lemma {:induction false} FoldEqualsOneWindowingIff(batches: seq<Batch>)
    requires batches != [] && Identified(AllEvents(batches))
    ensures Folded(batches) == Merged([], AllEvents(batches), batches[|batches| - 1].cutoffUs)
       <==> LastOnesStay(batches)
  {
    var cutoff := batches[|batches| - 1].cutoffUs;
    var all := AllEvents(batches);
    var folded, once := Folded(batches), Merged([], all, cutoff);
    FoldHoldsWhatStays(batches);
    MergedHolds([], all, cutoff);
    if folded == once {
      forall k, i | Occurs(batches, k, i) && LastSince(batches, k, i, cutoff) ensures Stays(batches, k, i) {
        LastRecentOccurs(batches, At(batches, k, i), cutoff);
        assert At(batches, k, i) in folded;
        TheOneThatStays(batches, k, i);
      }
    }
    if LastOnesStay(batches) {
      forall e ensures e in folded <==> e in once {
        LastRecentOccurs(batches, e, cutoff);
        if e in folded {
          StayingIsRecent(batches, e);
        }
      }
      forall e | e in folded ensures e in all {
        var k, i :| Occurs(batches, k, i) && At(batches, k, i) == e && Stays(batches, k, i);
        OccursInAll(batches, k, i);
      }
      OrderedListIsUnique(folded, once, all);
    }
  }

  /** If the event at (k, i) is held, and (k, i) is its last occurrence since the last cutoff, it is
      that occurrence which stays. */
  lemma TheOneThatStays(batches: seq<Batch>, k: int, i: int)
    requires Occurs(batches, k, i) && LastSince(batches, k, i, batches[|batches| - 1].cutoffUs)
    requires exists m, j :: Occurs(batches, m, j) && At(batches, m, j) == At(batches, k, i) && Stays(batches, m, j)
    ensures Stays(batches, k, i)
  {
    var m, j :| Occurs(batches, m, j) && At(batches, m, j) == At(batches, k, i) && Stays(batches, m, j);
    assert !LaterSame(batches, k, i, m, j);
    assert !LaterSame(batches, m, j, k, i);
  }

  /** What is held is the last recent version, if the last occurrences stay. */
  lemma {:induction false} StayingIsRecent(batches: seq<Batch>, e: Event)
    requires batches != [] && LastOnesStay(batches)
    requires e in Folded(batches)
    ensures LastRecent(AllEvents(batches), e.id, batches[|batches| - 1].cutoffUs) == Some(e)
  {
    var cutoff := batches[|batches| - 1].cutoffUs;
    FoldHoldsWhatStays(batches);
    var k, i :| Occurs(batches, k, i) && At(batches, k, i) == e && Stays(batches, k, i);
    OccursInAll(batches, k, i);
    var l := LastRecentIndex(AllEvents(batches), e.id, cutoff);
    var f := AllEvents(batches)[l];
    LastRecentOccurs(batches, f, cutoff);
    assert f in Folded(batches);
  }

  predicate CutoffsAscend(batches: seq<Batch>) {
    forall i, j :: 0 <= i < j < |batches| ==> batches[i].cutoffUs <= batches[j].cutoffUs
  }

  lemma {:induction false} LaterIsNoEarlier(batches: seq<Batch>, k: int, i: int, m: int, j: int)
    requires ImportsAscend(AllEvents(batches))
    requires Occurs(batches, k, i) && LaterSame(batches, k, i, m, j)
    ensures At(batches, k, i).importedAt <= At(batches, m, j).importedAt
  {
    var n := |batches| - 1;
    var front, last := batches[..n], batches[n];
    SubImportsAscend(AllEvents(front), last.events);
    if m < n {
      LaterIsNoEarlier(front, k, i, m, j);
    } else if k < n {
      OccursInAll(front, k, i);
    }
  }

  /** With generation times and import times per event that do not go back the two agree, and the list
      keeps for each id its last version. */
  lemma {:induction false} FoldEqualsOneWindowing(batches: seq<Batch>)
    requires batches != []
    requires CutoffsAscend(batches)
    requires ImportsAscend(AllEvents(batches)) && Identified(AllEvents(batches))
    ensures var cutoff := batches[|batches| - 1].cutoffUs;
            && Folded(batches) == Merged([], AllEvents(batches), cutoff)
            && IsWindow(Folded(batches), AllEvents(batches), cutoff)
  {
    var cutoff := batches[|batches| - 1].cutoffUs;
    var all := AllEvents(batches);
    forall k, i | Occurs(batches, k, i) && LastSince(batches, k, i, cutoff) ensures Stays(batches, k, i) {
      forall m, j | LaterSame(batches, k, i, m, j)
        ensures At(batches, k, i).importedAt <= At(batches, m, j).importedAt
      {
        LaterIsNoEarlier(batches, k, i, m, j);
      }
    }
    FoldEqualsOneWindowingIff(batches);
    assert [] + all == all;
    MergeExtendsWindow([], [], all, cutoff, cutoff);
  }

  lemma {:induction false} PutAllOne(d: seq<Event>, e: Event, cutoffUs: int)
    ensures PutAll(d, [e], cutoffUs) == if e.importedAt < cutoffUs then d else Put(d, e)
    ensures PutAll(d, [], cutoffUs) == d
  {
    assert [e][..0] == [];
  }

  lemma SortOne(e: Event)
    ensures StableSort([e], LiveLe) == [e] && StableSort([], LiveLe) == []
  {
    assert [e][..0] == [];
  }

  lemma MergeOne(e: Event, cutoffUs: int)
    ensures Merged([], [e], cutoffUs) == if e.importedAt < cutoffUs then [] else [e]
    ensures Merged([e], [], cutoffUs) == if e.importedAt < cutoffUs then [] else [e]
    ensures Merged([], [], cutoffUs) == []
  {
    PutAllOne([], e, cutoffUs);
    SortOne(e);
    PutNew(e);
  }

  lemma PutNew(e: Event)
    ensures Put([], e) == [e]
  {
  }

  lemma PutOver(a: Event, b: Event)
    requires a.id == b.id
    ensures Put([a], b) == [b]
  {
    assert Find([a], b.id) == Some(0);
  }

  lemma MergeTwo(a: Event, b: Event, cutoffUs: int)
    requires a.id == b.id && b.importedAt >= cutoffUs && a.importedAt >= cutoffUs
    ensures Merged([a], [b], cutoffUs) == [b]
  {
    PutAllOne([], a, cutoffUs);
    PutAllOne([a], b, cutoffUs);
    PutNew(a);
    PutOver(a, b);
    SortOne(b);
  }

  lemma MergeBoth(a: Event, b: Event, cutoffUs: int)
    requires b.importedAt < cutoffUs <= a.importedAt
    ensures Merged([], [a, b], cutoffUs) == [a]
  {
    assert [a, b][..1] == [a];
    PutAllOne([], a, cutoffUs);
    PutNew(a);
    SortOne(a);
  }

  /** Where the condition fails for the import times: an event imported again with an earlier time is lost by
      merging step by step, while one windowing keeps its later version. */
  lemma EarlierReimportDiffers(late: Event, early: Event, cutoffUs: int)
    requires late.id == early.id
    requires early.importedAt < cutoffUs <= late.importedAt
    ensures Folded([Batch([late], 0), Batch([early], 0), Batch([], cutoffUs)]) == []
    ensures Merged([], [late, early], cutoffUs) == [late]
  {
    var b1, b2, b3 := Batch([late], 0), Batch([early], 0), Batch([], cutoffUs);
    FoldThree(b1, b2, b3);
    MergeOne(late, 0);
    MergeTwo(late, early, 0);
    MergeOne(early, cutoffUs);
    MergeBoth(late, early, cutoffUs);
  }

  /** Where the condition fails for the generation times: a clock that goes back does not bring back what an
      earlier, later-dated run has dropped. */
  lemma ClockGoingBackDiffers(e: Event, cutoffUs: int)
    requires e.importedAt < cutoffUs
    ensures Folded([Batch([e], cutoffUs), Batch([], 0)]) == []
    ensures Merged([], [e], 0) == [e]
  {
    FoldTwo(Batch([e], cutoffUs), Batch([], 0));
    MergeOne(e, cutoffUs);
    MergeOne(e, 0);
  }

  lemma {:induction false} FoldMore(batches: seq<Batch>, b: Batch)
    ensures Folded(batches + [b]) == Merged(Folded(batches), b.events, b.cutoffUs)
  {
    assert (batches + [b])[..|batches|] == batches;
  }

  lemma FoldTwo(b1: Batch, b2: Batch)
    ensures Folded([b1, b2]) == Merged(Merged([], b1.events, b1.cutoffUs), b2.events, b2.cutoffUs)
  {
    FoldMore([], b1);
    FoldMore([b1], b2);
    assert [] + [b1] == [b1] && [b1] + [b2] == [b1, b2];
  }

  lemma FoldThree(b1: Batch, b2: Batch, b3: Batch)
    ensures Folded([b1, b2, b3])
         == Merged(Merged(Merged([], b1.events, b1.cutoffUs), b2.events, b2.cutoffUs), b3.events, b3.cutoffUs)
  {
    FoldTwo(b1, b2);
    FoldMore([b1, b2], b3);
    assert [b1, b2] + [b3] == [b1, b2, b3];
  }

  // ------------------------------------------------------------ the merged document in plain terms

  predicate IsRecent(e: Event, generatedUs: int, retentionSeconds: int) {
    generatedUs - e.importedAt <= retentionSeconds * 1000000
  }

  /** The last recent event of its id in the list. */
  predicate IsLastRecent(events: seq<Event>, i: int, generatedUs: int, retentionSeconds: int) {
    && 0 <= i < |events| && IsRecent(events[i], generatedUs, retentionSeconds)
    && forall j ::
         i < j < |events| && events[j].id == events[i].id ==> !IsRecent(events[j], generatedUs, retentionSeconds)
  }

  ghost predicate HasLastRecent(events: seq<Event>, e: Event, generatedUs: int, retentionSeconds: int) {
    exists i :: IsLastRecent(events, i, generatedUs, retentionSeconds) && events[i] == e
  }

  /** By time of import, then packet id, then origin. */
  predicate LiveImportOrder(a: Event, b: Event) {
    && a.importedAt <= b.importedAt
    && (a.importedAt == b.importedAt ==> a.packetId <= b.packetId)
    && (a.importedAt == b.importedAt && a.packetId == b.packetId ==> LexLe(a.fromId, b.fromId))
  }

  /** For each id the last recent event of the current document, or else of the previous one; once each, in order. */
  ghost predicate TellsWindow(w: seq<Event>, previous: seq<Event>, current: seq<Event>, generatedUs: int,
                              retentionSeconds: int) {
    && DistinctIds(w)
    && (forall i, j :: 0 <= i < j < |w| ==> LiveImportOrder(w[i], w[j]))
    && forall e :: e in w <==>
         || HasLastRecent(current, e, generatedUs, retentionSeconds)
         || (&& HasLastRecent(previous, e, generatedUs, retentionSeconds)
             && forall x :: x in current && x.id == e.id ==> !IsRecent(x, generatedUs, retentionSeconds))
  }

  lemma {:induction false} LastRecentMeans(events: seq<Event>, e: Event, generatedUs: int, retentionSeconds: int)
    ensures var r := LastRecent(events, e.id, Cutoff(generatedUs, retentionSeconds));
            && (r == Some(e) <==> HasLastRecent(events, e, generatedUs, retentionSeconds))
            && (r.None? <==> forall x :: x in events && x.id == e.id ==> !IsRecent(x, generatedUs, retentionSeconds))
  {
    var k := LastRecentIndex(events, e.id, Cutoff(generatedUs, retentionSeconds));
    if k >= 0 {
      assert events[k] in events;
      assert IsLastRecent(events, k, generatedUs, retentionSeconds);
      forall i | IsLastRecent(events, i, generatedUs, retentionSeconds) && events[i] == e ensures i == k {
      }
    } else {
      forall x | x in events && x.id == e.id ensures !IsRecent(x, generatedUs, retentionSeconds) {
        var i :| 0 <= i < |events| && events[i] == x;
      }
    }
  }

  lemma {:induction false} MergedTellsWindow(previous: seq<Event>, current: seq<Event>, generatedUs: int,
                                             retentionSeconds: int)
    ensures TellsWindow(Merged(previous, current, Cutoff(generatedUs, retentionSeconds)), previous, current,
                        generatedUs, retentionSeconds)
  {
    var cutoff := Cutoff(generatedUs, retentionSeconds);
    var first := PutAll([], previous, cutoff);
    var second := PutAll(first, current, cutoff);
    PutAllHolds([], previous, cutoff);
    PutAllHolds(first, current, cutoff);
    LiveOrder();
    SortSorts(second, LiveLe);
    var w := StableSort(second, LiveLe);
    SameElements(second, w);
    SortDistinct(second, w);
    forall i, j | 0 <= i < j < |w| ensures LiveImportOrder(w[i], w[j]) {
      assert LiveLe(w[i], w[j]);
    }
    forall e
      ensures e in w <==>
                || HasLastRecent(current, e, generatedUs, retentionSeconds)
                || (&& HasLastRecent(previous, e, generatedUs, retentionSeconds)
                    && forall x :: x in current && x.id == e.id ==> !IsRecent(x, generatedUs, retentionSeconds))
    {
      LastRecentMeans(current, e, generatedUs, retentionSeconds);
      LastRecentMeans(previous, e, generatedUs, retentionSeconds);
    }
  }

  // ------------------------------------------------------------ building a batch

  /** A polled packet: its event id, and its view unless building that fails. */
  datatype Polled = Polled(id: string, view: Option<Event>) {
    predicate Valid() { view.Some? ==> view.value.id == id }
  }

  /** The first packet of an id whose view can be built. */
  function FirstView(polled: seq<Polled>, id: string): Option<Event> {
    if polled == [] then None
    else if polled[0].id == id && polled[0].view.Some? then polled[0].view
    else FirstView(polled[1..], id)
  }

  lemma {:induction false} FirstViewExtend(polled: seq<Polled>, p: Polled, id: string)
    ensures FirstView(polled + [p], id)
         == if FirstView(polled, id).Some? then FirstView(polled, id) else if p.id == id then p.view else None
  {
    if polled != [] {
      assert (polled + [p])[1..] == polled[1..] + [p];
      FirstViewExtend(polled[1..], p, id);
    } else {
      assert (polled + [p])[1..] == [];
    }
  }

  /** The views kept: the first of each id. */
  function Views(polled: seq<Polled>): seq<Event> {
    if polled == [] then []
    else
      var front, p := polled[..|polled| - 1], polled[|polled| - 1];
      if FirstView(front, p.id).Some? || p.view.None? then Views(front) else Views(front) + [p.view.value]
  }

  /** The events of the document of a poll. */
  function Document(polled: seq<Polled>): seq<Event> {
    StableSort(Views(polled), LiveLe)
  }

  /** `build_live_document_from_ozulo_batch`: repeated ids are dropped, packets without a view skipped. */
  method BuildEvents(polled: seq<Polled>) returns (events: seq<Event>)
    ensures events == Document(polled)
  {
    var views: seq<Event> := [];
    var seen: set<string> := {};
    for i := 0 to |polled|
      invariant views == Views(polled[..i])
      invariant forall id :: id in seen <==> FirstView(polled[..i], id).Some?
    {
      var p := polled[i];
      assert polled[..i + 1] == polled[..i] + [p];
      forall id ensures FirstView(polled[..i + 1], id)
                     == if FirstView(polled[..i], id).Some? then FirstView(polled[..i], id)
                        else if p.id == id then p.view else None
      {
        FirstViewExtend(polled[..i], p, id);
      }
      if p.id in seen {
        continue;
      }
      if p.view.None? {
        continue;
      }
      seen := seen + {p.id};
      views := views + [p.view.value];
    }
    assert polled[..|polled|] == polled;
    events := StableSort(views, LiveLe);
  }

  lemma {:induction false} ViewsAreFirst(polled: seq<Polled>)
    requires forall i :: 0 <= i < |polled| ==> polled[i].Valid()
    ensures DistinctIds(Views(polled))
    ensures forall e :: e in Views(polled) <==> FirstView(polled, e.id) == Some(e)
  {
    if polled != [] {
      var front, p := polled[..|polled| - 1], polled[|polled| - 1];
      assert polled == front + [p];
      ViewsAreFirst(front);
      forall id ensures FirstView(polled, id)
                     == if FirstView(front, id).Some? then FirstView(front, id) else if p.id == id then p.view else None
      {
        FirstViewExtend(front, p, id);
      }
      if FirstView(front, p.id).None? && p.view.Some? {
        AppendDistinct(Views(front), p.view.value);
      }
    }
  }

  /** The document lists the first view of each id, once, in order. */
  lemma {:induction false} DocumentListsFirstViews(polled: seq<Polled>)
    requires forall i :: 0 <= i < |polled| ==> polled[i].Valid()
    ensures Sorted(Document(polled), LiveLe) && DistinctIds(Document(polled))
    ensures forall e :: e in Document(polled) <==> FirstView(polled, e.id) == Some(e)
  {
    ViewsAreFirst(polled);
    LiveOrder();
    SortSorts(Views(polled), LiveLe);
    SameElements(Views(polled), Document(polled));
    SortDistinct(Views(polled), Document(polled));
  }

  /** The packet is the first of its id whose view can be built. */
  predicate IsFirstView(polled: seq<Polled>, i: int) {
    && 0 <= i < |polled| && polled[i].view.Some?
    && forall j :: 0 <= j < i && polled[j].id == polled[i].id ==> polled[j].view.None?
  }

  lemma {:induction false} FirstViewIndex(polled: seq<Polled>, id: string) returns (i: int)
    ensures if i < 0 then FirstView(polled, id).None? && forall j ::
              0 <= j < |polled| && polled[j].id == id ==> polled[j].view.None?
            else IsFirstView(polled, i) && polled[i].id == id && FirstView(polled, id) == polled[i].view
  {
    if polled == [] {
      i := -1;
    } else if polled[0].id == id && polled[0].view.Some? {
      i := 0;
    } else {
      i := FirstViewIndex(polled[1..], id);
      if i >= 0 {
        i := i + 1;
      }
    }
  }

  /** The document in plain terms: the views of the first packets of their ids, by time of import, packet id and
      origin. */
  lemma {:induction false} DocumentInOrder(polled: seq<Polled>)
    requires forall i :: 0 <= i < |polled| ==> (polled[i].view.Some? ==> polled[i].view.value.id == polled[i].id)
    ensures var w := Document(polled);
            && DistinctIds(w)
            && (forall i, j :: 0 <= i < j < |w| ==> LiveImportOrder(w[i], w[j]))
            && forall e :: e in w <==> exists i :: IsFirstView(polled, i) && polled[i].view == Some(e)
  {
    DocumentListsFirstViews(polled);
    var w := Document(polled);
    forall i, j | 0 <= i < j < |w| ensures LiveImportOrder(w[i], w[j]) {
      assert LiveLe(w[i], w[j]);
    }
    forall e ensures e in w <==> exists i :: IsFirstView(polled, i) && polled[i].view == Some(e) {
      var k := FirstViewIndex(polled, e.id);
      if i :| IsFirstView(polled, i) && polled[i].view == Some(e) {
        assert polled[i].id == e.id;
      }
    }
  }
}
