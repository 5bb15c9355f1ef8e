/** What any number of live runs, complete or cut short, leaves behind. */
module LiveRunProperties {
  import opened Basics
  import opened Ordering
  import opened LiveHistory
  import opened LiveWindow
  import opened LiveHistoryPublication
  import opened LiveRun
  import ES = ExperimentStore

  /** The state after a series of attempts, whatever became of each. */
  ghost function After(s: State, attempts: seq<Attempt>): (r: State) {
    if attempts == [] then s
    else Attempted(After(s, attempts[..|attempts| - 1]), attempts[|attempts| - 1]).state
  }

  // ------------------------------------------------------------ properties that every effect keeps

  ghost predicate EffectKeeps(p: State -> bool, e: Effect) {
    forall s: State :: p(s) && Applied(s, e).Ok? ==> p(Applied(s, e).value)
  }

  ghost predicate EffectsKeep(p: State -> bool, effects: Effects) {
    effects.Done? || (EffectKeeps(p, effects.first) && EffectsKeep(p, effects.rest))
  }

  lemma {:induction false} RunKeeps(p: State -> bool, s: State, effects: Effects, budget: nat)
    requires p(s)
    requires EffectsKeep(p, effects)
    ensures p(Run(s, effects, budget).state)
    decreases effects
  {
    if effects.Then? && budget > 0 && Applied(s, effects.first).Ok? {
      RunKeeps(p, Applied(s, effects.first).value, effects.rest, budget - 1);
    }
  }

  /** Every effect that a run with these events at this time may have keeps the property. */
  ghost predicate RunEffectsKeep(p: State -> bool, events: seq<Event>, nowUs: int) {
    && EffectKeeps(p, Effect.SaveHistory(events)) && EffectKeeps(p, Effect.PruneHistory(nowUs))
    && (forall h :: EffectKeeps(p, Effect.PublishHour(h)))
    && EffectKeeps(p, Effect.PublishManifest) && EffectKeeps(p, Effect.CleanFiles)
    && EffectKeeps(p, Effect.WriteWindow(events, nowUs))
    && EffectKeeps(p, Effect.StoreExperiment(events)) && EffectKeeps(p, Effect.PublishReport)
    && forall c :: EffectKeeps(p, CommitCursor(c))
  }

  lemma {:induction false} HoursKeep(p: State -> bool, hours: seq<int>, rest: Effects)
    requires forall h :: EffectKeeps(p, Effect.PublishHour(h))
    requires EffectsKeep(p, rest)
    ensures EffectsKeep(p, PublishEach(hours, rest))
  {
    if hours != [] {
      HoursKeep(p, hours[1..], rest);
      assert EffectKeeps(p, Effect.PublishHour(hours[0]));
    }
  }

  lemma FinishKeeps(p: State -> bool, events: seq<Event>, nowUs: int, next: Option<nat>)
    requires RunEffectsKeep(p, events, nowUs)
    ensures EffectsKeep(p, Finish(events, nowUs, next))
  {
    assert EffectsKeep(p, Done);
    assert next.Some? ==> EffectKeeps(p, CommitCursor(next.value));
    assert EffectsKeep(p, Commit(next));
    assert EffectsKeep(p, Then(Effect.PublishReport, Commit(next)));
    assert EffectsKeep(p, Confirmation(events, next));
    assert EffectsKeep(p, Delivery(events, nowUs, next));
    assert EffectsKeep(p, Then(Effect.CleanFiles, Delivery(events, nowUs, next)));
  }

  lemma AttemptKeeps(p: State -> bool, s: State, a: Attempt)
    requires p(s)
    requires RunEffectsKeep(p, a.Events(), a.nowUs)
    ensures p(Attempted(s, a).state)
  {
    var events, next := a.Events(), a.batch.nextCursor;
    var hours := Ordered(HoursToPublish(s.history, events, a.nowUs));
    FinishKeeps(p, events, a.nowUs, next);
    HoursKeep(p, hours, Finish(events, a.nowUs, next));
    assert EffectsKeep(p, Then(Effect.PruneHistory(a.nowUs), PublishEach(hours, Finish(events, a.nowUs, next))));
    if a.batch.previousCursor == s.cursor {
      RunKeeps(p, s, Plan(s.history, events, a.nowUs, next), a.budget);
    }
  }

  lemma {:induction false} AttemptsKeep(p: State -> bool, s: State, attempts: seq<Attempt>)
    requires p(s)
    requires forall a :: a in attempts ==> RunEffectsKeep(p, a.Events(), a.nowUs)
    ensures p(After(s, attempts))
  {
    if attempts != [] {
      var n := |attempts| - 1;
      AttemptsKeep(p, s, attempts[..n]);
      AttemptKeeps(p, After(s, attempts[..n]), attempts[n]);
    }
  }

  // ------------------------------------------------------------ the cursor

  ghost function NoEarlierThan(cursor: Option<nat>): State -> bool {
    (s: State) => CursorLe(cursor, s.cursor)
  }

  lemma EffectKeepsCursor(cursor: Option<nat>, e: Effect)
    ensures EffectKeeps(NoEarlierThan(cursor), e)
  {
    forall s: State | CursorLe(cursor, s.cursor) && Applied(s, e).Ok?
      ensures CursorLe(cursor, Applied(s, e).value.cursor)
    {
    }
  }

  /** Whatever attempts are made and wherever they stop, the stored cursor never goes back. */
  lemma {:induction false} CursorNeverDecreases(s: State, attempts: seq<Attempt>)
    ensures CursorLe(s.cursor, After(s, attempts).cursor)
  {
    forall e ensures EffectKeeps(NoEarlierThan(s.cursor), e) {
      EffectKeepsCursor(s.cursor, e);
    }
    AttemptsKeep(NoEarlierThan(s.cursor), s, attempts);
  }

  /** A commit can only be the last effect. */
  ghost predicate CommitsLast(effects: Effects) {
    effects.Done? || ((effects.first.CommitCursor? ==> effects.rest.Done?) && CommitsLast(effects.rest))
  }

  lemma {:induction false} HoursCommitLast(hours: seq<int>, rest: Effects)
    requires CommitsLast(rest)
    ensures CommitsLast(PublishEach(hours, rest))
  {
    if hours != [] {
      HoursCommitLast(hours[1..], rest);
    }
  }

  lemma PlanCommitsLast(t: Table, events: seq<Event>, nowUs: int, next: Option<nat>)
    ensures CommitsLast(Plan(t, events, nowUs, next))
  {
    assert CommitsLast(Commit(next));
    assert CommitsLast(Confirmation(events, next));
    assert CommitsLast(Delivery(events, nowUs, next));
    assert CommitsLast(Finish(events, nowUs, next));
    HoursCommitLast(Ordered(HoursToPublish(t, events, nowUs)), Finish(events, nowUs, next));
  }

  lemma {:induction false} CursorMovesLast(s: State, effects: Effects, budget: nat)
    requires CommitsLast(effects)
    requires Run(s, effects, budget).state.cursor != s.cursor
    ensures Run(s, effects, budget).problem.None?
    decreases effects
  {
    if effects.Then? && budget > 0 && Applied(s, effects.first).Ok? && !effects.first.CommitCursor? {
      CursorMovesLast(Applied(s, effects.first).value, effects.rest, budget - 1);
    }
  }

  // ------------------------------------------------------------ complete runs

  ghost function PublishedAll(files: HourFiles, hours: seq<int>, t: Table): HourFiles
    decreases hours
  {
    if hours == [] then files else PublishedAll(files[hours[0] := DocumentOf(t, hours[0])], hours[1..], t)
  }

  lemma {:induction false} PublishedFiles(files: HourFiles, hours: seq<int>, t: Table)
    ensures var after := PublishedAll(files, hours, t);
            && (forall h :: h in after <==> h in files || h in hours)
            && (forall h :: h in hours ==> after[h] == DocumentOf(t, h))
            && (forall h :: h in files && h !in hours ==> after[h] == files[h])
    decreases hours
  {
    if hours != [] {
      PublishedFiles(files[hours[0] := DocumentOf(t, hours[0])], hours[1..], t);
    }
  }

  /** The state after the history, the hour files, the index, the live document and the confirmation. */
  ghost function HistoryUpdated(s: State, events: seq<Event>, nowUs: int): State {
    s.(history := Kept(s.history, events, nowUs))
  }

  ghost function HoursPublished(s: State, hours: seq<int>): State {
    s.(files := PublishedAll(s.files, hours, s.history))
  }

  ghost function Indexed(s: State): State {
    s.(manifest := Some(s.history), files := Cleaned(s.files, s.history))
  }

  ghost function WindowWritten(s: State, events: seq<Event>, nowUs: int): State {
    s.(window := Some(Merged(EventsOf(s.window), events, WindowCutoff(nowUs))))
  }

  ghost function Confirmed(s: State, events: seq<Event>, next: Option<nat>): State {
    var experiment := ES.StoredAll(s.experiment, ES.Observations(events));
    s.(experiment := experiment, report := Some(experiment), cursor := if next.Some? then next else s.cursor)
  }

  /** The state a complete run leaves. */
  ghost function Complete(s: State, events: seq<Event>, nowUs: int, next: Option<nat>): State {
    CompleteWith(s, events, nowUs, next, Ordered(HoursToPublish(s.history, events, nowUs)))
  }

  ghost function CompleteWith(s: State, events: seq<Event>, nowUs: int, next: Option<nat>, hours: seq<int>): State {
    var published := HoursPublished(HistoryUpdated(s, events, nowUs), hours);
    Confirmed(WindowWritten(Indexed(published), events, nowUs), events, next)
  }

  ghost predicate Publishable(t: Table, hour: int) {
    hour >= 0 && hour % HOUR_US == 0 && |HourEvents(t, hour)| <= HOUR_LIMIT
  }

  ghost predicate AllPublishable(t: Table, hours: seq<int>) {
    forall h :: h in hours ==> Publishable(t, h)
  }

  lemma {:induction false} HoursOutcome(s: State, hours: seq<int>, rest: Effects, budget: nat)
    ensures var o := Run(s, PublishEach(hours, rest), budget);
            if AllPublishable(s.history, hours) && |hours| <= budget
            then o == Run(HoursPublished(s, hours), rest, budget - |hours|)
            else o.problem.Some? || rest.Done?
    decreases hours
  {
    if hours != [] {
      var h := hours[0];
      assert h in hours;
      assert AllPublishable(s.history, hours)
        <==> Publishable(s.history, h) && AllPublishable(s.history, hours[1..]) by {
        assert hours == [h] + hours[1..];
      }
      if Publishable(s.history, h) && budget > 0 {
        HoursOutcome(s.(files := s.files[h := DocumentOf(s.history, h)]), hours[1..], rest, budget - 1);
      }
    }
  }

  /** How many effects confirm a run: the experiment, its report, and the cursor if the batch has one. */
  function Confirming(next: Option<nat>): nat {
    if next.Some? then 3 else 2
  }

  lemma {:induction false} CommitOutcome(s: State, next: Option<nat>, budget: nat)
    ensures var o := Run(s, Commit(next), budget);
            && (o.problem.None? <==> budget >= Confirming(next) - 2 && (next.Some? ==> CursorLe(s.cursor, next)))
            && (o.problem.None? ==> o.state == s.(cursor := if next.Some? then next else s.cursor))
  {
    if next.Some? && budget > 0 {
      var r := Applied(s, CommitCursor(next.value));
      if r.Ok? {
        assert Run(s, Commit(next), budget) == Run(r.value, Done, budget - 1);
      }
    }
  }

  lemma {:induction false} ConfirmationOutcome(s: State, events: seq<Event>, next: Option<nat>, budget: nat)
    ensures var o := Run(s, Confirmation(events, next), budget);
            && (o.problem.None? <==> budget >= Confirming(next) && (next.Some? ==> CursorLe(s.cursor, next)))
            && (o.problem.None? ==> o.state == Confirmed(s, events, next))
  {
    if budget >= 2 {
      var stored := Applied(s, Effect.StoreExperiment(events)).value;
      var reported := Applied(stored, Effect.PublishReport).value;
      assert Run(s, Confirmation(events, next), budget)
          == Run(stored, Then(Effect.PublishReport, Commit(next)), budget - 1);
      assert Run(stored, Then(Effect.PublishReport, Commit(next)), budget - 1)
          == Run(reported, Commit(next), budget - 2);
      CommitOutcome(reported, next, budget - 2);
    } else if budget == 1 {
      assert Run(s, Confirmation(events, next), 1)
          == Run(Applied(s, Effect.StoreExperiment(events)).value, Then(Effect.PublishReport, Commit(next)), 0);
    }
  }

  lemma {:induction false} FinishOutcome(s: State, events: seq<Event>, nowUs: int, next: Option<nat>, budget: nat)
    ensures var o := Run(s, Finish(events, nowUs, next), budget);
            && (o.problem.None? <==> budget >= 3 + Confirming(next) && (next.Some? ==> CursorLe(s.cursor, next))
                                     && HasIds(EventsOf(s.window)) && HasIds(events))
            && (o.problem.None? ==> o.state == Confirmed(WindowWritten(Indexed(s), events, nowUs), events, next))
  {
    var rest := Delivery(events, nowUs, next);
    if budget >= 2 {
      var indexed := Applied(s, Effect.PublishManifest).value;
      assert Run(s, Finish(events, nowUs, next), budget) == Run(indexed, Then(Effect.CleanFiles, rest), budget - 1);
      assert Applied(indexed, Effect.CleanFiles) == Ok(Indexed(s));
      assert Run(indexed, Then(Effect.CleanFiles, rest), budget - 1) == Run(Indexed(s), rest, budget - 2);
      DeliveryOutcome(Indexed(s), events, nowUs, next, budget - 2);
    } else if budget == 1 {
      assert Run(s, Finish(events, nowUs, next), 1)
          == Run(Applied(s, Effect.PublishManifest).value, Then(Effect.CleanFiles, rest), 0);
    }
  }

  lemma {:induction false} DeliveryOutcome(s: State, events: seq<Event>, nowUs: int, next: Option<nat>, budget: nat)
    ensures var o := Run(s, Delivery(events, nowUs, next), budget);
            && (o.problem.None? <==> budget >= 1 + Confirming(next) && (next.Some? ==> CursorLe(s.cursor, next))
                                     && HasIds(EventsOf(s.window)) && HasIds(events))
            && (o.problem.None? ==> o.state == Confirmed(WindowWritten(s, events, nowUs), events, next))
  {
    var r := Applied(s, Effect.WriteWindow(events, nowUs));
    if budget >= 1 && r.Ok? {
      assert Run(s, Delivery(events, nowUs, next), budget) == Run(r.value, Confirmation(events, next), budget - 1);
      ConfirmationOutcome(r.value, events, next, budget - 1);
    }
  }

  /** What an attempt needs to be carried through. */
  ghost predicate CanComplete(s: State, a: Attempt) {
    var events, next := a.Events(), a.batch.nextCursor;
    var hours := Ordered(HoursToPublish(s.history, events, a.nowUs));
    && a.batch.previousCursor == s.cursor
    && AllValid(events)
    && Admissible(HistoryUpdated(s, events, a.nowUs), hours, events, next)
    && a.budget >= 5 + |hours| + Confirming(next)
  }

  /** An attempt is carried through exactly when its batch answers the stored cursor and does not take it
      back, its events are valid, no hour it rewrites exceeds the limit, the live document is readable
      and it is not cut short; it then leaves all of its effects. */
  lemma CompletesIff(s: State, a: Attempt)
    ensures Attempted(s, a).problem.None? <==> CanComplete(s, a)
    ensures Attempted(s, a).problem.None?
        ==> Attempted(s, a).state == Complete(s, a.Events(), a.nowUs, a.batch.nextCursor)
  {
    if a.batch.previousCursor == s.cursor {
      var hours := Ordered(HoursToPublish(s.history, a.Events(), a.nowUs));
      PlanOutcome(s, a.Events(), a.nowUs, a.batch.nextCursor, hours, a.budget);
    }
  }

  /** What the stored state and the events have to be like for the effects after the history to succeed. */
  ghost predicate Admissible(s: State, hours: seq<int>, events: seq<Event>, next: Option<nat>) {
    AllPublishable(s.history, hours) && HasIds(EventsOf(s.window)) && HasIds(events)
    && (next.Some? ==> CursorLe(s.cursor, next))
  }

  lemma {:induction false} PlanOutcome(s: State, events: seq<Event>, nowUs: int, next: Option<nat>, hours: seq<int>,
                                       budget: nat)
    ensures var plan := Then(Effect.SaveHistory(events),
                             Then(Effect.PruneHistory(nowUs), PublishEach(hours, Finish(events, nowUs, next))));
            var o := Run(s, plan, budget);
            && (o.problem.None? <==>
                  && AllValid(events) && Admissible(HistoryUpdated(s, events, nowUs), hours, events, next)
                  && budget >= 5 + |hours| + Confirming(next))
            && (o.problem.None? ==> o.state == CompleteWith(s, events, nowUs, next, hours))
  {
    var updated := HistoryUpdated(s, events, nowUs);
    if budget >= 2 {
      PublicationOutcome(updated, hours, events, nowUs, next, budget - 2);
    }
    JoinOutcomes(s, events, nowUs, PublishEach(hours, Finish(events, nowUs, next)), budget,
                 Admissible(updated, hours, events, next), |hours| + 3 + Confirming(next),
                 CompleteWith(s, events, nowUs, next, hours));
  }

  lemma {:induction false} JoinOutcomes(s: State, events: seq<Event>, nowUs: int, rest: Effects, budget: nat,
                     admissible: bool, needed: nat, final: State)
    requires budget >= 2 ==>
               var o := Run(HistoryUpdated(s, events, nowUs), rest, budget - 2);
               (o.problem.None? <==> admissible && budget - 2 >= needed) && (o.problem.None? ==> o.state == final)
    ensures var o := Run(s, Then(Effect.SaveHistory(events), Then(Effect.PruneHistory(nowUs), rest)), budget);
            && (o.problem.None? <==> AllValid(events) && admissible && budget >= 2 + needed)
            && (o.problem.None? ==> o.state == final)
  {
    HistoryOutcome(s, events, nowUs, rest, budget);
  }

  lemma {:induction false} PublicationOutcome(s: State, hours: seq<int>, events: seq<Event>, nowUs: int,
                                              next: Option<nat>, budget: nat)
    ensures var o := Run(s, PublishEach(hours, Finish(events, nowUs, next)), budget);
            && (o.problem.None? <==> Admissible(s, hours, events, next) && budget >= |hours| + 3 + Confirming(next))
            && (o.problem.None? ==>
                  o.state == Confirmed(WindowWritten(Indexed(HoursPublished(s, hours)), events, nowUs), events, next))
  {
    var published := HoursPublished(s, hours);
    assert published.window == s.window && published.cursor == s.cursor;
    if |hours| <= budget {
      FinishOutcome(published, events, nowUs, next, budget - |hours|);
    }
    JoinHours(s, hours, Finish(events, nowUs, next), budget,
              HasIds(EventsOf(s.window)) && HasIds(events) && (next.Some? ==> CursorLe(s.cursor, next)),
              3 + Confirming(next),
              Confirmed(WindowWritten(Indexed(published), events, nowUs), events, next));
  }

  lemma {:induction false} JoinHours(s: State, hours: seq<int>, rest: Effects, budget: nat, admissible: bool,
                                     needed: nat, final: State)
    requires rest.Then?
    requires |hours| <= budget ==>
               var o := Run(HoursPublished(s, hours), rest, budget - |hours|);
               (o.problem.None? <==> admissible && budget - |hours| >= needed) && (o.problem.None? ==> o.state == final)
    ensures var o := Run(s, PublishEach(hours, rest), budget);
            && (o.problem.None? <==> AllPublishable(s.history, hours) && admissible && budget >= |hours| + needed)
            && (o.problem.None? ==> o.state == final)
  {
    HoursOutcome(s, hours, rest, budget);
  }

  lemma {:induction false} HistoryOutcome(s: State, events: seq<Event>, nowUs: int, rest: Effects, budget: nat)
    ensures var o := Run(s, Then(Effect.SaveHistory(events), Then(Effect.PruneHistory(nowUs), rest)), budget);
            if AllValid(events) && budget >= 2
            then o == Run(HistoryUpdated(s, events, nowUs), rest, budget - 2)
            else o.problem.Some?
  {
    var saved := s.(history := Upserted(s.history, events));
    if AllValid(events) && budget >= 1 {
      assert Applied(s, Effect.SaveHistory(events)) == Ok(saved);
      assert Run(s, Then(Effect.SaveHistory(events), Then(Effect.PruneHistory(nowUs), rest)), budget)
          == Run(saved, Then(Effect.PruneHistory(nowUs), rest), budget - 1);
    }
  }
}
