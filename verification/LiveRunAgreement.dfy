/** When the static hour files agree with the history, although a run rewrites only a few of them. */
module LiveRunAgreement {
  import opened Basics
  import opened Ordering
  import opened LiveHistory
  import opened LiveWindow
  import opened LiveHistoryPublication
  import opened LiveRun
  import opened LiveRunProperties
  import opened LiveRunDelivery

  /** The row is in the table and belongs to the hour. */
  predicate RowOfHour(t: Table, e: Event, hour: int) {
    e.id in t && t[e.id] == e && HourOf(e.importedAt) == hour
  }

  /** Two tables have the same hour document exactly when the same rows belong to the hour. */
  lemma SameHourIff(s: Table, t: Table, hour: int)
    requires hour % HOUR_US == 0
    ensures DocumentOf(s, hour) == DocumentOf(t, hour) <==> forall e :: RowOfHour(s, e, hour) <==> RowOfHour(t, e, hour)
  {
    var keep := OfHour(hour);
    SameRowsSameAnswer(s, keep, t, keep);
    forall e: Event
      ensures (e.id in s && s[e.id] == e && keep(e)) <==> RowOfHour(s, e, hour)
      ensures (e.id in t && t[e.id] == e && keep(e)) <==> RowOfHour(t, e, hour)
    {
      OfHourIff(e, hour);
    }
  }

  lemma HourHasRow(t: Table, hour: int)
    ensures hour in HoursOf(t) <==> exists e :: RowOfHour(t, e, hour)
  {
    if hour in HoursOf(t) {
      var id :| id in t && HourOf(t[id].importedAt) == hour;
      assert RowOfHour(t, t[id], hour);
    }
  }

  /** A stored event that the batch moves out of an hour which keeps other events and is not rewritten. */
  ghost predicate Strays(t: Table, events: seq<Event>, nowUs: int, e: Event) {
    && e in events && e.id in t
    && HourOf(t[e.id].importedAt) != HourOf(e.importedAt)
    && HourOf(t[e.id].importedAt) in HoursOf(Kept(t, events, nowUs))
    && HourOf(t[e.id].importedAt) !in HoursToPublish(t, events, nowUs)
  }

  // ------------------------------------------------------------ hours that are not rewritten

  lemma KeptRows(t: Table, events: seq<Event>, nowUs: int, id: string)
    requires DistinctIds(events)
    ensures var kept := Kept(t, events, nowUs);
            && (id in kept ==>
                  && kept[id].importedAt >= HistoryCutoff(nowUs)
                  && (kept[id] in events || (Absent(events, id) && id in t && kept[id] == t[id])))
            && (Absent(events, id) && id in t && t[id].importedAt >= HistoryCutoff(nowUs)
                ==> id in kept && kept[id] == t[id])
            && (forall e :: e in events && e.id == id && id in kept ==> kept[id] == e)
  {
    UpsertedHolds(t, events);
  }

  lemma EventHours(events: seq<Event>)
    ensures forall e :: e in events ==> HourOf(e.importedAt) in HoursOfEvents(events)
  {
  }

  /** A kept row of an hour that is not rewritten was there before. */
  lemma KeptFromBefore(t: Table, events: seq<Event>, nowUs: int, e: Event, hour: int)
    requires DistinctIds(events)
    requires hour !in HoursToPublish(t, events, nowUs)
    requires RowOfHour(Kept(t, events, nowUs), e, hour)
    ensures RowOfHour(t, e, hour)
  {
    KeptRows(t, events, nowUs, e.id);
    EventHours(events);
  }

  /** Pruning rows of an hour that keeps others makes it the oldest hour, which is rewritten. */
  lemma PrunedHourIsRewritten(t: Table, events: seq<Event>, nowUs: int, e: Event, g: Event, hour: int)
    requires DistinctIds(events)
    requires RowOfHour(t, e, hour) && Absent(events, e.id) && e.importedAt < HistoryCutoff(nowUs)
    requires RowOfHour(Kept(t, events, nowUs), g, hour)
    ensures hour in HoursToPublish(t, events, nowUs)
  {
    var saved, kept := Upserted(t, events), Kept(t, events, nowUs);
    UpsertedHolds(t, events);
    assert e.id in saved && e.id !in kept;
    FewerRows(kept, saved, e.id);
    assert HourOf(kept[g.id].importedAt) in HoursOf(kept);
    forall h | h in HoursOf(kept) ensures hour <= h {
      var id :| id in kept && HourOf(kept[id].importedAt) == h;
      HourMonotone(e.importedAt, kept[id].importedAt);
    }
    assert OldestHour(kept, hour);
  }

  lemma FewerRows(kept: Table, saved: Table, id: string)
    requires kept.Keys <= saved.Keys && id in saved && id !in kept
    ensures |kept| < |saved|
  {
    SubsetSize(kept.Keys, saved.Keys - {id});
    assert |saved.Keys - {id}| == |saved.Keys| - 1;
    assert |kept| == |kept.Keys| && |saved| == |saved.Keys|;
  }

  /** A row of an hour that is not rewritten but still holds events is kept there, unless it strays. */
  lemma BeforeStaysKept(t: Table, events: seq<Event>, nowUs: int, e: Event, hour: int)
    requires DistinctIds(events)
    requires hour !in HoursToPublish(t, events, nowUs) && hour in HoursOf(Kept(t, events, nowUs))
    requires forall f :: !Strays(t, events, nowUs, f)
    requires RowOfHour(t, e, hour)
    ensures RowOfHour(Kept(t, events, nowUs), e, hour)
  {
    KeptRows(t, events, nowUs, e.id);
    EventHours(events);
    forall f | f in events ensures f.id != e.id {
      assert !Strays(t, events, nowUs, f);
    }
    if e.importedAt < HistoryCutoff(nowUs) {
      HourHasRow(Kept(t, events, nowUs), hour);
      var g :| RowOfHour(Kept(t, events, nowUs), g, hour);
      PrunedHourIsRewritten(t, events, nowUs, e, g, hour);
      assert false;
    }
  }

  lemma UntouchedHourIff(t: Table, events: seq<Event>, nowUs: int, hour: int)
    requires DistinctIds(events) && hour % HOUR_US == 0
    requires hour !in HoursToPublish(t, events, nowUs) && hour in HoursOf(Kept(t, events, nowUs))
    requires forall f :: !Strays(t, events, nowUs, f)
    ensures hour in HoursOf(t) && DocumentOf(t, hour) == DocumentOf(Kept(t, events, nowUs), hour)
  {
    var kept := Kept(t, events, nowUs);
    HourHasRow(kept, hour);
    var g :| RowOfHour(kept, g, hour);
    KeptFromBefore(t, events, nowUs, g, hour);
    HourHasRow(t, hour);
    forall e ensures RowOfHour(t, e, hour) <==> RowOfHour(kept, e, hour) {
      if RowOfHour(kept, e, hour) {
        KeptFromBefore(t, events, nowUs, e, hour);
      }
      if RowOfHour(t, e, hour) {
        BeforeStaysKept(t, events, nowUs, e, hour);
      }
    }
    SameHourIff(t, kept, hour);
  }

  /** The file of an hour that an event strayed from still lists it. */
  lemma StrayedHourDiffers(t: Table, events: seq<Event>, nowUs: int, e: Event)
    requires DistinctIds(events)
    requires Strays(t, events, nowUs, e)
    ensures var hour := HourOf(t[e.id].importedAt); DocumentOf(t, hour) != DocumentOf(Kept(t, events, nowUs), hour)
  {
    var kept, hour := Kept(t, events, nowUs), HourOf(t[e.id].importedAt);
    KeptRows(t, events, nowUs, e.id);
    assert RowOfHour(t, t[e.id], hour);
    assert !RowOfHour(kept, t[e.id], hour);
    SameHourIff(t, kept, hour);
  }

  // ------------------------------------------------------------ agreement after a complete run

  /** The files a complete run leaves. */
  lemma CompleteFiles(s: State, a: Attempt)
    requires Attempted(s, a).problem.None?
    ensures var after := Attempted(s, a).state;
            var hours := HoursToPublish(s.history, a.Events(), a.nowUs);
            && after.history == Kept(s.history, a.Events(), a.nowUs) && after.manifest == Some(after.history)
            && Rewritten(s.files, after.files, hours, after.history)
  {
    var hours := HoursToPublish(s.history, a.Events(), a.nowUs);
    CompletesIff(s, a);
    OrderedAscends(hours);
    PublishedFiles(s.files, Ordered(hours), Attempted(s, a).state.history);
  }

  lemma HoursAreAligned(t: Table, hour: int)
    requires hour in HoursOf(t)
    ensures hour % HOUR_US == 0
  {
    var id :| id in t && HourOf(t[id].importedAt) == hour;
  }

  /** After a complete run from files that agree with the history, the files agree again, exactly when no
      event strays: an hour file exists for just the hours that hold an event, and lists that hour. */
  lemma CompleteRunAgreesIff(s: State, a: Attempt)
    requires a.Valid()
    requires FilesAgree(s.files, s.history)
    requires Attempted(s, a).problem.None?
    ensures FilesAgree(Attempted(s, a).state.files, Attempted(s, a).state.history)
       <==> forall e :: !Strays(s.history, a.Events(), a.nowUs, e)
  {
    DocumentListsFirstViews(a.batch.polled);
    CompleteFiles(s, a);
    if forall e :: !Strays(s.history, a.Events(), a.nowUs, e) {
      AgreesWithoutStrays(s.history, a.Events(), a.nowUs, s.files, Attempted(s, a).state.files);
    } else {
      var e :| Strays(s.history, a.Events(), a.nowUs, e);
      StrayDisagrees(s.history, a.Events(), a.nowUs, s.files, Attempted(s, a).state.files, e);
    }
  }

  /** The files after a run, from the files before it. */
  ghost predicate Rewritten(before: HourFiles, after: HourFiles, hours: set<int>, kept: Table) {
    && (forall h :: h in after <==> h in HoursOf(kept) && (h in before || h in hours))
    && (forall h :: h in after && h in hours ==> after[h] == DocumentOf(kept, h))
    && (forall h :: h in after && h !in hours ==> after[h] == before[h])
  }

  lemma AgreesWithoutStrays(t: Table, events: seq<Event>, nowUs: int, before: HourFiles, after: HourFiles)
    requires DistinctIds(events) && FilesAgree(before, t)
    requires Rewritten(before, after, HoursToPublish(t, events, nowUs), Kept(t, events, nowUs))
    requires forall e :: !Strays(t, events, nowUs, e)
    ensures FilesAgree(after, Kept(t, events, nowUs))
  {
    var kept, hours := Kept(t, events, nowUs), HoursToPublish(t, events, nowUs);
    forall h | h in HoursOf(kept) ensures h in after && after[h] == DocumentOf(kept, h) {
      if h !in hours {
        HoursAreAligned(kept, h);
        UntouchedHourIff(t, events, nowUs, h);
        assert h in before && before[h] == DocumentOf(t, h);
      }
    }
    assert after.Keys == HoursOf(kept) by {
      forall h ensures h in after.Keys <==> h in HoursOf(kept) {
      }
    }
  }

  lemma StrayDisagrees(t: Table, events: seq<Event>, nowUs: int, before: HourFiles, after: HourFiles, e: Event)
    requires DistinctIds(events) && FilesAgree(before, t)
    requires Rewritten(before, after, HoursToPublish(t, events, nowUs), Kept(t, events, nowUs))
    requires Strays(t, events, nowUs, e)
    ensures !FilesAgree(after, Kept(t, events, nowUs))
  {
    var hour := HourOf(t[e.id].importedAt);
    StrayedHourDiffers(t, events, nowUs, e);
    assert hour in HoursOf(t);
    assert hour in before && before[hour] == DocumentOf(t, hour);
    assert hour in after && after[hour] == before[hour];
  }

  /** Such events exist: moving one of two events of an hour to another hour leaves the hour's file as it
      was, although it lists the moved event. */
  lemma MovedEventStrays(e: Event, f: Event, later: Event, nowUs: int)
    requires later.id == e.id && f.id != e.id
    requires HourOf(e.importedAt) == HourOf(f.importedAt) && HourOf(later.importedAt) != HourOf(e.importedAt)
    requires HistoryCutoff(nowUs) <= f.importedAt && HistoryCutoff(nowUs) <= later.importedAt
    ensures Strays(map[e.id := e, f.id := f], [later], nowUs, later)
  {
    var t := map[e.id := e, f.id := f];
    var saved, kept := Upserted(t, [later]), Kept(t, [later], nowUs);
    assert [later][..0] == [];
    assert Upserted(t, []) == t;
    assert saved == t[later.id := later];
    assert kept.Keys == saved.Keys;
    assert |kept| == |kept.Keys| == |saved.Keys| == |saved|;
    assert HourOf(kept[f.id].importedAt) in HoursOf(kept);
    assert HoursToPublish(t, [later], nowUs) == HoursOfEvents([later]);
  }

  // ------------------------------------------------------------ over runs

  /** Events with one id have one import time. */
  predicate OneImportTime(t: Table, events: seq<Event>) {
    forall e :: e in events && e.id in t ==> t[e.id].importedAt == e.importedAt
  }

  lemma NothingStrays(t: Table, events: seq<Event>, nowUs: int)
    requires OneImportTime(t, events)
    ensures forall e :: !Strays(t, events, nowUs, e)
  {
  }

  /** Import times as an assignment that every event of the history and of the attempts follows. */
  ghost predicate Follows(times: map<string, nat>, e: Event) {
    e.id in times && times[e.id] == e.importedAt
  }

  ghost predicate HistoryFollows(times: map<string, nat>, t: Table) {
    forall id :: id in t ==> Follows(times, t[id])
  }

  lemma KeptFollows(times: map<string, nat>, t: Table, events: seq<Event>, nowUs: int)
    requires DistinctIds(events)
    requires HistoryFollows(times, t) && forall e :: e in events ==> Follows(times, e)
    ensures HistoryFollows(times, Kept(t, events, nowUs))
  {
    forall id | id in Kept(t, events, nowUs) ensures Follows(times, Kept(t, events, nowUs)[id]) {
      KeptRows(t, events, nowUs, id);
    }
  }

  /** Every attempt of the series is carried through. */
  ghost predicate AllComplete(s: State, attempts: seq<Attempt>) {
    attempts == [] || (AllComplete(s, attempts[..|attempts| - 1])
                       && Attempted(After(s, attempts[..|attempts| - 1]), attempts[|attempts| - 1]).problem.None?)
  }

  /** When event ids keep their import time, the files agree with the history, and the index is built
      from it, after every series of complete runs. */
  lemma {:induction false} CompleteRunsAgree(s: State, attempts: seq<Attempt>, times: map<string, nat>)
    requires FilesAgree(s.files, s.history)
    requires HistoryFollows(times, s.history)
    requires forall a :: a in attempts ==> a.Valid() && forall e :: e in a.Events() ==> Follows(times, e)
    requires AllComplete(s, attempts)
    ensures FilesAgree(After(s, attempts).files, After(s, attempts).history)
    ensures attempts != [] ==> After(s, attempts).manifest == Some(After(s, attempts).history)
    ensures HistoryFollows(times, After(s, attempts).history)
  {
    if attempts != [] {
      var n := |attempts| - 1;
      var before, a := After(s, attempts[..n]), attempts[n];
      CompleteRunsAgree(s, attempts[..n], times);
      OneMoreRun(before, a, times);
    }
  }

  lemma OneMoreRun(s: State, a: Attempt, times: map<string, nat>)
    requires FilesAgree(s.files, s.history) && HistoryFollows(times, s.history)
    requires a.Valid() && forall e :: e in a.Events() ==> Follows(times, e)
    requires Attempted(s, a).problem.None?
    ensures var after := Attempted(s, a).state;
            FilesAgree(after.files, after.history) && after.manifest == Some(after.history)
            && HistoryFollows(times, after.history)
  {
    NothingStrays(s.history, a.Events(), a.nowUs);
    CompleteRunAgreesIff(s, a);
    CompleteFiles(s, a);
    DocumentListsFirstViews(a.batch.polled);
    KeptFollows(times, s.history, a.Events(), a.nowUs);
  }

  // ------------------------------------------------------------ the manifest and the files it names

  /** Every hour that the manifest lists has a file. */
  ghost predicate ManifestHasFiles(s: State) {
    s.manifest.Some? ==> forall h :: h in HoursOf(s.manifest.value) ==> h in s.files
  }

  /** Every hour with events has a file, or is one that these events belong to. */
  ghost predicate FilesUpTo(s: State, events: seq<Event>) {
    forall h :: h in HoursOf(s.history) ==> h in s.files || h in HoursOfEvents(events)
  }

  ghost function AllListed(events: seq<Event>): State -> bool {
    (s: State) => ManifestHasFiles(s) && FilesUpTo(s, events)
  }

  lemma EffectKeepsListed(events: seq<Event>, e: Effect)
    requires e.SaveHistory? ==> e.events == events
    requires !e.PublishManifest? && !e.CleanFiles?
    ensures EffectKeeps(AllListed(events), e)
  {
    forall s: State | AllListed(events)(s) && Applied(s, e).Ok? ensures AllListed(events)(Applied(s, e).value) {
      var after := Applied(s, e).value;
      match e {
        case SaveHistory(batch) =>
          forall h | h in HoursOf(after.history) ensures h in s.files || h in HoursOfEvents(events) {
            UpsertedHour(s.history, events, h);
          }
        case PruneHistory(nowUs) =>
        case PublishHour(hour) =>
        case _ =>
      }
    }
  }

  lemma {:induction false} UpsertedHour(t: Table, events: seq<Event>, h: int)
    requires h in HoursOf(Upserted(t, events))
    ensures h in HoursOf(t) || h in HoursOfEvents(events)
  {
    if events != [] {
      var n := |events| - 1;
      var id :| id in Upserted(t, events) && HourOf(Upserted(t, events)[id].importedAt) == h;
      if id == events[n].id {
        assert h == HourOf(events[n].importedAt);
      } else {
        assert h in HoursOf(Upserted(t, events[..n]));
        UpsertedHour(t, events[..n], h);
        assert forall i :: 0 <= i < n ==> events[..n][i] == events[i];
      }
    }
  }

  /** The manifest is published when all files are there, and only then are stale files removed. */
  lemma {:induction false} FinishKeepsListed(s: State, events: seq<Event>, nowUs: int, next: Option<nat>, budget: nat)
    requires AllListed(events)(s)
    requires forall h :: h in HoursOf(s.history) ==> h in s.files
    ensures AllListed(events)(Run(s, Finish(events, nowUs, next), budget).state)
  {
    if budget > 0 {
      var indexed := Applied(s, Effect.PublishManifest).value;
      CleaningKeepsListed(indexed, events, nowUs, next, budget - 1);
    }
  }

  lemma {:induction false} CleaningKeepsListed(s: State, events: seq<Event>, nowUs: int, next: Option<nat>, budget: nat)
    requires s.manifest == Some(s.history)
    requires forall h :: h in HoursOf(s.history) ==> h in s.files
    ensures AllListed(events)(Run(s, Then(Effect.CleanFiles, Delivery(events, nowUs, next)), budget).state)
  {
    if budget > 0 {
      var cleaned := Applied(s, Effect.CleanFiles).value;
      DeliveryKeepsListed(events, nowUs, next);
      RunKeeps(AllListed(events), cleaned, Delivery(events, nowUs, next), budget - 1);
    }
  }

  lemma DeliveryKeepsListed(events: seq<Event>, nowUs: int, next: Option<nat>)
    ensures EffectsKeep(AllListed(events), Delivery(events, nowUs, next))
  {
    var p := AllListed(events);
    EffectKeepsListed(events, Effect.WriteWindow(events, nowUs));
    EffectKeepsListed(events, Effect.StoreExperiment(events));
    EffectKeepsListed(events, Effect.PublishReport);
    if next.Some? {
      EffectKeepsListed(events, CommitCursor(next.value));
    }
    assert EffectsKeep(p, Done);
    assert EffectsKeep(p, Commit(next));
    assert EffectsKeep(p, Then(Effect.PublishReport, Commit(next)));
    assert EffectsKeep(p, Confirmation(events, next));
  }

  lemma {:induction false} HoursKeepListed(s: State, hours: seq<int>, events: seq<Event>, nowUs: int, next: Option<nat>,
                                           budget: nat)
    requires AllListed(events)(s)
    requires forall h :: h in HoursOf(s.history) ==> h in s.files || h in hours
    ensures AllListed(events)(Run(s, PublishEach(hours, Finish(events, nowUs, next)), budget).state)
    decreases hours
  {
    if hours == [] {
      FinishKeepsListed(s, events, nowUs, next, budget);
    } else if budget > 0 && Applied(s, Effect.PublishHour(hours[0])).Ok? {
      EffectKeepsListed(events, Effect.PublishHour(hours[0]));
      var published := Applied(s, Effect.PublishHour(hours[0])).value;
      assert hours == [hours[0]] + hours[1..];
      HoursKeepListed(published, hours[1..], events, nowUs, next, budget - 1);
    }
  }

  lemma {:induction false} PruningKeepsListed(s: State, events: seq<Event>, nowUs: int, next: Option<nat>,
                                              hours: seq<int>, budget: nat)
    requires AllListed(events)(s)
    requires forall h :: h in HoursOfEvents(events) ==> h in hours
    ensures var rest := PublishEach(hours, Finish(events, nowUs, next));
            AllListed(events)(Run(s, Then(Effect.PruneHistory(nowUs), rest), budget).state)
  {
    if budget > 0 {
      EffectKeepsListed(events, Effect.PruneHistory(nowUs));
      var pruned := Applied(s, Effect.PruneHistory(nowUs)).value;
      HoursKeepListed(pruned, hours, events, nowUs, next, budget - 1);
    }
  }

  lemma {:induction false} SavingKeepsListed(s: State, events: seq<Event>, nowUs: int, rest: Effects, budget: nat)
    requires AllListed(events)(s)
    requires forall saved: State, left: nat ::
               AllListed(events)(saved) ==> AllListed(events)(Run(saved, rest, left).state)
    ensures AllListed(events)(Run(s, Then(Effect.SaveHistory(events), rest), budget).state)
  {
    if budget > 0 && Applied(s, Effect.SaveHistory(events)).Ok? {
      EffectKeepsListed(events, Effect.SaveHistory(events));
      var saved := Applied(s, Effect.SaveHistory(events)).value;
      assert Run(s, Then(Effect.SaveHistory(events), rest), budget) == Run(saved, rest, budget - 1);
    }
  }

  /** One attempt, stopped anywhere, that brings the events of all hours that have no file yet. */
  lemma {:induction false} AttemptKeepsListed(s: State, a: Attempt)
    requires AllListed(a.Events())(s)
    ensures AllListed(a.Events())(Attempted(s, a).state)
  {
    var events, nowUs, next := a.Events(), a.nowUs, a.batch.nextCursor;
    var hours := HoursToPublish(s.history, events, nowUs);
    var rest := Then(Effect.PruneHistory(nowUs), PublishEach(Ordered(hours), Finish(events, nowUs, next)));
    OrderedAscends(hours);
    forall saved: State, left: nat | AllListed(events)(saved) ensures AllListed(events)(Run(saved, rest, left).state) {
      PruningKeepsListed(saved, events, nowUs, next, Ordered(hours), left);
    }
    SavingKeepsListed(s, events, nowUs, rest, a.budget);
  }

  /** From agreeing files and manifest, through attempts stopped anywhere of which each brings the events of those
      before it again: every hour that the published manifest lists has a file, at every stop. */
  lemma {:induction false} ManifestHoursHaveFiles(s: State, attempts: seq<Attempt>)
    requires FilesAgree(s.files, s.history) && s.manifest == Some(s.history)
    requires forall i, j :: 0 <= i < j < |attempts| ==>
               forall e :: e in attempts[i].Events() ==> e in attempts[j].Events()
    ensures ManifestHasFiles(After(s, attempts))
    ensures attempts != [] ==> FilesUpTo(After(s, attempts), attempts[|attempts| - 1].Events())
  {
    if attempts != [] {
      var n := |attempts| - 1;
      var before, events := After(s, attempts[..n]), attempts[n].Events();
      ManifestHoursHaveFiles(s, attempts[..n]);
      if n > 0 {
        MoreEvents(before, attempts[n - 1].Events(), events);
      }
      assert AllListed(events)(before);
      AttemptKeepsListed(before, attempts[n]);
      assert AllListed(events)(After(s, attempts));
    }
  }

  lemma MoreEvents(s: State, few: seq<Event>, many: seq<Event>)
    requires FilesUpTo(s, few) && forall e :: e in few ==> e in many
    ensures FilesUpTo(s, many)
  {
    forall h | h in HoursOfEvents(few) ensures h in HoursOfEvents(many) {
      var i :| 0 <= i < |few| && HourOf(few[i].importedAt) == h;
      assert few[i] in many;
      var j :| 0 <= j < |many| && many[j] == few[i];
    }
  }
}
