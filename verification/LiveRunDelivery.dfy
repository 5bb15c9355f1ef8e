/** Nothing that a committed cursor has passed is lost, and a failed attempt leaves no trace in what its
    retry stores. */
module LiveRunDelivery {
  import opened Basics
  import opened Ordering
  import opened LiveHistory
  import opened LiveWindow
  import opened LiveHistoryPublication
  import opened LiveRun
  import opened LiveRunProperties
  import ES = ExperimentStore

  // ------------------------------------------------------------ what an upsert leaves

  /** No event of the list has the id. */
  predicate Absent(events: seq<Event>, id: string) {
    forall e :: e in events ==> e.id != id
  }

  ghost predicate HoldsEvents(after: Table, t: Table, events: seq<Event>) {
    && (forall e :: e in events ==> e.id in after && after[e.id] == e)
    && (forall id :: Absent(events, id) ==> (id in after <==> id in t) && (id in t ==> after[id] == t[id]))
  }

  lemma HoldsMore(after: Table, t: Table, front: seq<Event>, last: Event)
    requires HoldsEvents(after, t, front) && Absent(front, last.id)
    ensures HoldsEvents(after[last.id := last], t, front + [last])
  {
    var events := front + [last];
    forall e | e in events ensures e.id in after[last.id := last] && after[last.id := last][e.id] == e {
      assert e in front || e == last;
    }
    forall id | Absent(events, id) ensures Absent(front, id) && id != last.id {
      assert last in events;
      assert forall e :: e in front ==> e in events;
    }
  }

  lemma {:induction false} UpsertedHolds(t: Table, events: seq<Event>)
    requires DistinctIds(events)
    ensures HoldsEvents(Upserted(t, events), t, events)
  {
    if events != [] {
      var n := |events| - 1;
      UpsertedHolds(t, events[..n]);
      assert events == events[..n] + [events[n]];
      forall e | e in events[..n] ensures e.id != events[n].id {
        var i :| 0 <= i < n && events[i] == e;
      }
      HoldsMore(Upserted(t, events[..n]), t, events[..n], events[n]);
    }
  }

  // ------------------------------------------------------------ committed batches

  ghost predicate Sound(s: State) {
    (s.window.Some? ==> DistinctIds(s.window.value))
  }

  lemma SoundStays(e: Effect)
    requires e.WriteWindow? ==> DistinctIds(e.events)
    ensures EffectKeeps(Sound, e)
  {
    forall s: State | Sound(s) && Applied(s, e).Ok? ensures Sound(Applied(s, e).value) {
      if e.WriteWindow? {
        MergedHolds(EventsOf(s.window), e.events, WindowCutoff(e.nowUs));
      }
    }
  }

  lemma {:induction false} AttemptsStaySound(s: State, attempts: seq<Attempt>)
    requires Sound(s) && forall a :: a in attempts ==> a.Valid()
    ensures Sound(After(s, attempts))
  {
    forall a | a in attempts ensures RunEffectsKeep(Sound, a.Events(), a.nowUs) {
      DocumentListsFirstViews(a.batch.polled);
      SoundRun(a.Events(), a.nowUs);
    }
    AttemptsKeep(Sound, s, attempts);
  }

  lemma SoundRun(events: seq<Event>, nowUs: int)
    requires DistinctIds(events)
    ensures RunEffectsKeep(Sound, events, nowUs)
  {
    forall e: Effect | e.WriteWindow? ==> e.events == events ensures EffectKeeps(Sound, e) {
      SoundStays(e);
    }
  }

  /** Every event of the attempt's document is in the three places it belongs to, unless it is already
      older than what that place keeps. */
  ghost predicate Delivered(s: State, a: Attempt) {
    forall e :: e in a.Events() ==>
      && (e.importedAt >= HistoryCutoff(a.nowUs) ==> e.id in s.history && s.history[e.id] == e)
      && (e.importedAt >= WindowCutoff(a.nowUs) ==> s.window.Some? && e in s.window.value)
      && (ES.ObservationOf(e).Some? ==> e.id in s.experiment && s.experiment[e.id] == ES.ObservationOf(e).value)
  }

  lemma CompleteRunDelivers(s: State, a: Attempt)
    requires Sound(s) && a.Valid()
    requires Attempted(s, a).problem.None?
    ensures Delivered(Attempted(s, a).state, a)
  {
    var events := a.Events();
    var after := Attempted(s, a).state;
    CompletesIff(s, a);
    DocumentListsFirstViews(a.batch.polled);
    UpsertedHolds(s.history, events);
    ES.StoredRows(s.experiment, events);
    WindowTakesRecent(EventsOf(s.window), events, WindowCutoff(a.nowUs));
  }

  /** What a complete run leaves, in plain terms: the history holds nothing older than 30 days and every event of
      the batch that is not; the live document is the merged window of one hour and holds every event of the
      batch that is not older; manifest and report are up to date, and the cursor is the batch's. */
  lemma CompleteRunLeaves(s: State, a: Attempt)
    requires a.Valid()
    requires Attempted(s, a).problem.None?
    ensures var after := Attempted(s, a).state;
            && (forall id :: id in after.history ==>
                  && a.nowUs - after.history[id].importedAt <= 30 * 86400 * 1000000
                  && (after.history[id] in a.Events() || (id in s.history && after.history[id] == s.history[id])))
            && (forall e :: e in a.Events() && a.nowUs - e.importedAt <= 30 * 86400 * 1000000 ==>
                  e.id in after.history && after.history[e.id] == e)
            && (forall id :: id in s.history && Absent(a.Events(), id)
                             && a.nowUs - s.history[id].importedAt <= 30 * 86400 * 1000000 ==>
                  id in after.history && after.history[id] == s.history[id])
            && after.manifest == Some(after.history) && after.report == Some(after.experiment)
            && after.cursor == (if a.batch.nextCursor.Some? then a.batch.nextCursor else s.cursor)
  {
    CompletesIff(s, a);
    DocumentListsFirstViews(a.batch.polled);
    UpsertedHolds(s.history, a.Events());
    var upserted := Upserted(s.history, a.Events());
    forall id | id in upserted ensures upserted[id] in a.Events()
                                       || (id in s.history && upserted[id] == s.history[id]) {
      if !Absent(a.Events(), id) {
        var e :| e in a.Events() && e.id == id;
      }
    }
  }

  lemma CompleteRunWindow(s: State, a: Attempt)
    requires a.Valid()
    requires Attempted(s, a).problem.None?
    ensures var after := Attempted(s, a).state;
            && after.window.Some?
            && TellsWindow(after.window.value, EventsOf(s.window), a.Events(), a.nowUs, 3600)
            && forall e :: e in a.Events() && a.nowUs - e.importedAt <= 3600 * 1000000 ==> e in after.window.value
  {
    CompletesIff(s, a);
    var events := a.Events();
    DocumentListsFirstViews(a.batch.polled);
    MergedTellsWindow(EventsOf(s.window), events, a.nowUs, 3600);
    forall e | e in events && a.nowUs - e.importedAt <= 3600 * 1000000 ensures HasLastRecent(events, e, a.nowUs, 3600) {
      var i :| 0 <= i < |events| && events[i] == e;
      assert IsLastRecent(events, i, a.nowUs, 3600);
    }
  }

  lemma CursorMoveMeansComplete(s: State, a: Attempt)
    requires Attempted(s, a).state.cursor != s.cursor
    ensures Attempted(s, a).problem.None? && Attempted(s, a).state.cursor == a.batch.nextCursor
  {
    if a.batch.previousCursor == s.cursor {
      PlanCommitsLast(s.history, a.Events(), a.nowUs, a.batch.nextCursor);
      CursorMovesLast(s, Plan(s.history, a.Events(), a.nowUs, a.batch.nextCursor), a.budget);
      CompletesIff(s, a);
    }
  }

  lemma {:induction false} AfterPrefix(s: State, attempts: seq<Attempt>, i: nat)
    requires i < |attempts|
    ensures After(s, attempts[..i + 1]) == Attempted(After(s, attempts[..i]), attempts[i]).state
  {
    assert attempts[..i + 1][..i] == attempts[..i];
  }

  /** Over any attempts, cut short anywhere: whenever the stored cursor moves, it moves to the batch's
      next cursor, and by then every event of that batch has been delivered. */
  lemma {:induction false} CommittedBatchWasDelivered(s: State, attempts: seq<Attempt>, i: nat)
    requires Sound(s) && forall a :: a in attempts ==> a.Valid()
    requires i < |attempts|
    requires After(s, attempts[..i + 1]).cursor != After(s, attempts[..i]).cursor
    ensures After(s, attempts[..i + 1]).cursor == attempts[i].batch.nextCursor
    ensures Delivered(After(s, attempts[..i + 1]), attempts[i])
  {
    AfterPrefix(s, attempts, i);
    AttemptsStaySound(s, attempts[..i]);
    CursorMoveMeansComplete(After(s, attempts[..i]), attempts[i]);
    CompleteRunDelivers(After(s, attempts[..i]), attempts[i]);
  }

  // ------------------------------------------------------------ events stay until they are pruned

  ghost function HoldsRow(e: Event): State -> bool {
    (s: State) => e.id in s.history && s.history[e.id] == e
  }

  lemma RowStays(e: Event, effect: Effect)
    requires effect.SaveHistory? ==> DistinctIds(effect.events) && Absent(effect.events, e.id)
    requires effect.PruneHistory? ==> e.importedAt >= HistoryCutoff(effect.nowUs)
    ensures EffectKeeps(HoldsRow(e), effect)
  {
    forall s: State | HoldsRow(e)(s) && Applied(s, effect).Ok?
      ensures HoldsRow(e)(Applied(s, effect).value)
    {
      if effect.SaveHistory? {
        UpsertedHolds(s.history, effect.events);
      }
    }
  }

  /** An event in the history stays there, unchanged, through any attempts that do not bring it again and
      whose clock has not left it behind. */
  lemma {:induction false} HistoryKeepsUntilPruned(s: State, attempts: seq<Attempt>, e: Event)
    requires e.id in s.history && s.history[e.id] == e
    requires forall a :: a in attempts ==>
      a.Valid() && Absent(a.Events(), e.id) && e.importedAt >= HistoryCutoff(a.nowUs)
    ensures e.id in After(s, attempts).history && After(s, attempts).history[e.id] == e
  {
    forall a | a in attempts ensures RunEffectsKeep(HoldsRow(e), a.Events(), a.nowUs) {
      DocumentListsFirstViews(a.batch.polled);
      RowRun(e, a.Events(), a.nowUs);
    }
    AttemptsKeep(HoldsRow(e), s, attempts);
  }

  lemma RowRun(e: Event, events: seq<Event>, nowUs: int)
    requires DistinctIds(events) && Absent(events, e.id) && e.importedAt >= HistoryCutoff(nowUs)
    ensures RunEffectsKeep(HoldsRow(e), events, nowUs)
  {
    forall f: Effect | (f.SaveHistory? ==> f.events == events) && (f.PruneHistory? ==> f.nowUs == nowUs)
      ensures EffectKeeps(HoldsRow(e), f)
    {
      RowStays(e, f);
    }
  }

  // ------------------------------------------------------------ failed attempts and their retry

  lemma {:induction false} RepeatedUpsert(t: Table, first: seq<Event>, second: seq<Event>)
    requires DistinctIds(first) && DistinctIds(second)
    requires forall e :: e in first ==> e in second
    ensures Upserted(Upserted(t, first), second) == Upserted(t, second)
  {
    var between := Upserted(t, first);
    UpsertedHolds(t, first);
    UpsertedHolds(t, second);
    UpsertedHolds(between, second);
    SameHolding(Upserted(t, second), Upserted(between, second), t, between, second);
  }

  lemma SameHolding(once: Table, twice: Table, t: Table, between: Table, events: seq<Event>)
    requires HoldsEvents(once, t, events) && HoldsEvents(twice, between, events)
    requires forall id :: Absent(events, id) ==> (id in between <==> id in t) && (id in t ==> between[id] == t[id])
    ensures once == twice
  {
    forall id ensures (id in once <==> id in twice) && (id in once ==> once[id] == twice[id]) {
      if !Absent(events, id) {
        var e :| e in events && e.id == id;
      }
    }
    assert once.Keys == twice.Keys;
  }

  /** Rows pruned by an earlier clock are rows that the later clock prunes anyway. */
  lemma {:induction false} PrunedEarlier(t: Table, events: seq<Event>, earlier: int, later: int)
    requires DistinctIds(events) && earlier <= later
    ensures PrunedBefore(Upserted(PrunedBefore(t, earlier), events), later) == PrunedBefore(Upserted(t, events), later)
  {
    var pruned := PrunedBefore(t, earlier);
    UpsertedHolds(t, events);
    UpsertedHolds(pruned, events);
    var a, b := PrunedBefore(Upserted(pruned, events), later), PrunedBefore(Upserted(t, events), later);
    forall id ensures (id in a <==> id in b) && (id in a ==> a[id] == b[id]) {
      if !Absent(events, id) {
        var e :| e in events && e.id == id;
      }
    }
    assert a.Keys == b.Keys;
  }

  /** A retry with these events at this time would leave the history and the experiment like this. */
  ghost function RetryLeaves(history: Table, experiment: ES.Table, events: seq<Event>, nowUs: int): State -> bool {
    (s: State) => Kept(s.history, events, nowUs) == history
                  && ES.StoredAll(s.experiment, ES.Observations(events)) == experiment
  }

  lemma RetryAbsorbs(history: Table, experiment: ES.Table, events: seq<Event>, nowUs: int, effect: Effect)
    requires DistinctIds(events)
    requires effect.SaveHistory? || effect.StoreExperiment? ==>
               DistinctIds(effect.events) && forall e :: e in effect.events ==> e in events
    requires effect.PruneHistory? ==> effect.nowUs <= nowUs
    ensures EffectKeeps(RetryLeaves(history, experiment, events, nowUs), effect)
  {
    var p := RetryLeaves(history, experiment, events, nowUs);
    forall s: State | p(s) && Applied(s, effect).Ok? ensures p(Applied(s, effect).value) {
      match effect {
        case SaveHistory(first) => RepeatedUpsert(s.history, first, events);
        case PruneHistory(earlier) => PrunedEarlier(s.history, events, HistoryCutoff(earlier), HistoryCutoff(nowUs));
        case StoreExperiment(first) => ES.RepeatedDocument(s.experiment, first, events);
        case _ =>
      }
    }
  }

  /** The attempt brings nothing that the retry does not bring again, at no later a clock. */
  ghost predicate RepeatedBy(a: Attempt, retry: Attempt) {
    a.Valid() && a.nowUs <= retry.nowUs && forall e :: e in a.Events() ==> e in retry.Events()
  }

  /** Whatever the attempts did before they stopped, their retry saves and prunes the same. */
  lemma {:induction false} AttemptsAreAbsorbed(s: State, failed: seq<Attempt>, retry: Attempt)
    requires retry.Valid()
    requires forall a :: a in failed ==> RepeatedBy(a, retry)
    ensures var after, events := After(s, failed), retry.Events();
            && Kept(after.history, events, retry.nowUs) == Kept(s.history, events, retry.nowUs)
            && ES.StoredAll(after.experiment, ES.Observations(events))
               == ES.StoredAll(s.experiment, ES.Observations(events))
  {
    var events, nowUs := retry.Events(), retry.nowUs;
    var history, experiment := Kept(s.history, events, nowUs), ES.StoredAll(s.experiment, ES.Observations(events));
    DocumentListsFirstViews(retry.batch.polled);
    var p := RetryLeaves(history, experiment, events, nowUs);
    forall a | a in failed ensures RunEffectsKeep(p, a.Events(), a.nowUs) {
      DocumentListsFirstViews(a.batch.polled);
      AbsorbedRun(history, experiment, events, nowUs, a.Events(), a.nowUs);
    }
    AttemptsKeep(p, s, failed);
  }

  /** Attempts that fail at any point, followed by a retry that brings their events again at a clock no
      earlier, leave the history and the experiment as one run of the retry alone. */
  lemma {:induction false} RetryEqualsOneRun(s: State, failed: seq<Attempt>, retry: Attempt)
    requires retry.Valid()
    requires forall a :: a in failed ==> RepeatedBy(a, retry)
    requires Attempted(After(s, failed), retry).problem.None? && Attempted(s, retry).problem.None?
    ensures Attempted(After(s, failed), retry).state.history == Attempted(s, retry).state.history
    ensures Attempted(After(s, failed), retry).state.experiment == Attempted(s, retry).state.experiment
  {
    CompletesIff(s, retry);
    CompletesIff(After(s, failed), retry);
    AttemptsAreAbsorbed(s, failed, retry);
  }

  lemma AbsorbedRun(history: Table, experiment: ES.Table, events: seq<Event>, nowUs: int, first: seq<Event>,
                    earlier: int)
    requires DistinctIds(events) && DistinctIds(first) && earlier <= nowUs
    requires forall e :: e in first ==> e in events
    ensures RunEffectsKeep(RetryLeaves(history, experiment, events, nowUs), first, earlier)
  {
    forall f: Effect | && (f.SaveHistory? || f.StoreExperiment? ==> f.events == first)
                       && (f.PruneHistory? ==> f.nowUs == earlier)
      ensures EffectKeeps(RetryLeaves(history, experiment, events, nowUs), f)
    {
      RetryAbsorbs(history, experiment, events, nowUs, f);
    }
  }

  // ------------------------------------------------------------ an hour over the limit

  /** The attempt brings an event of the hour, and of that hour it would keep more events than a file may list. */
  ghost predicate Overfills(history: Table, a: Attempt, hour: int) {
    && hour in HoursOfEvents(a.Events())
    && |HourEvents(Kept(history, a.Events(), a.nowUs), hour)| > HOUR_LIMIT
  }

  lemma OverfillingFails(s: State, a: Attempt, hour: int)
    requires Overfills(s.history, a, hour)
    ensures Attempted(s, a).problem.Some?
  {
    CompletesIff(s, a);
    var hours := HoursToPublish(s.history, a.Events(), a.nowUs);
    OrderedAscends(hours);
    assert hour in Ordered(hours);
  }

  /** An hour over the limit stops every retry that brings the events again, as long as the hour stays
      over the limit at the clock of the retry; the cursor stays where it was. */
  lemma {:induction false} OverfullHourStopsRetries(s: State, attempts: seq<Attempt>, hour: int)
    requires forall i :: 0 <= i < |attempts| ==> attempts[i].Valid() && Overfills(s.history, attempts[i], hour)
    requires forall i, j :: 0 <= i < j < |attempts| ==> RepeatedBy(attempts[i], attempts[j])
    ensures After(s, attempts).cursor == s.cursor
    ensures attempts != [] ==> Attempted(After(s, attempts[..|attempts| - 1]), attempts[|attempts| - 1]).problem.Some?
  {
    if attempts != [] {
      var n := |attempts| - 1;
      var before, last := After(s, attempts[..n]), attempts[n];
      OverfullHourStopsRetries(s, attempts[..n], hour);
      AttemptsAreAbsorbed(s, attempts[..n], last);
      OverfillingFails(before, last, hour);
      if Attempted(before, last).state.cursor != before.cursor {
        CursorMoveMeansComplete(before, last);
      }
    }
  }
}
