/** One iteration of the live traffic (`live_runner.py`): a fixed sequence of effects on two databases,
    the published files and the stored cursor, which may be cut short between any two of them. */
module LiveRun {
  import opened Basics
  import opened Ordering
  import opened LiveHistory
  import opened LiveWindow
  import opened LiveHistoryPublication
  import ES = ExperimentStore

  // ------------------------------------------------------------ the page that feeds a run

  datatype FeedError = NotAdvanced

  /** `max` */
  function Greatest(times: seq<nat>): (g: nat)
    requires times != []
    ensures g in times && forall i :: 0 <= i < |times| ==> times[i] <= g
  {
    if |times| == 1 then times[0]
    else
      var rest := Greatest(times[1..]);
      assert forall i :: 1 <= i < |times| ==> times[i] == times[1..][i - 1];
      if times[0] > rest then times[0] else rest
  }

  /** The cursor after a page of `fetch_ozulo_live_page`, from the import times of its packets. */
  function NextCursor(cursor: Option<nat>, times: seq<nat>): (r: Result<Option<nat>, FeedError>)
    ensures r.Ok? ==> CursorLe(cursor, r.value)
    ensures r.Ok? && r.value != cursor ==> r.value.Some? && r.value.value in times
    ensures r.Ok? ==> forall i :: 0 <= i < |times| ==> r.value.Some? && times[i] <= r.value.value
    ensures r.Err? <==> cursor.Some? && times != [] && forall i :: 0 <= i < |times| ==> times[i] <= cursor.value
  {
    if times == [] then Ok(cursor)
    else
      var greatest := Greatest(times);
      if cursor.Some? && greatest <= cursor.value then Err(NotAdvanced) else Ok(Some(greatest))
  }

  /** A missing cursor is before every cursor. */
  predicate CursorLe(a: Option<nat>, b: Option<nat>) {
    a.Some? ==> b.Some? && a.value <= b.value
  }

  // ------------------------------------------------------------ effects

  /** What the runs leave behind.  The manifest stands for the history it was built from, the report
      for the experiment table it was built from. */
  datatype State = State(history: Table, files: HourFiles, manifest: Option<Table>, window: Option<seq<Event>>,
                         experiment: ES.Table, report: Option<ES.Table>, cursor: Option<nat>)

  datatype Effect =
    | SaveHistory(events: seq<Event>)
    | PruneHistory(nowUs: int)
    | PublishHour(hour: int)
    | PublishManifest
    | CleanFiles
    | WriteWindow(events: seq<Event>, nowUs: int)
    | StoreExperiment(events: seq<Event>)
    | PublishReport
    | CommitCursor(cursor: nat)

  datatype Problem =
    | StaleBatch | InvalidHistoryEvent | UnpublishableHour | BadLiveDocument | CursorRetreats | Interrupted

  function HistoryCutoff(nowUs: int): int {
    Cutoff(nowUs, RETENTION_SECONDS)
  }

  function WindowCutoff(nowUs: int): int {
    Cutoff(nowUs, WINDOW_SECONDS)
  }

  predicate AllValid(events: seq<Event>) {
    forall i :: 0 <= i < |events| ==> ValidEvent(events[i])
  }

  /** One effect on a state whose history is keyed by event id; a problem leaves the state as it was. */
  ghost function Applied(s: State, e: Effect): (r: Result<State, Problem>) {
    match e
    case SaveHistory(events) =>
      if AllValid(events) then Ok(s.(history := Upserted(s.history, events))) else Err(InvalidHistoryEvent)
    case PruneHistory(nowUs) => Ok(s.(history := PrunedBefore(s.history, HistoryCutoff(nowUs))))
    case PublishHour(hour) =>
      if hour < 0 || hour % HOUR_US != 0 || |HourEvents(s.history, hour)| > HOUR_LIMIT then Err(UnpublishableHour)
      else Ok(s.(files := s.files[hour := DocumentOf(s.history, hour)]))
    case PublishManifest => Ok(s.(manifest := Some(s.history)))
    case CleanFiles => Ok(s.(files := Cleaned(s.files, s.history)))
    case WriteWindow(events, nowUs) =>
      if HasIds(EventsOf(s.window)) && HasIds(events)
      then Ok(s.(window := Some(Merged(EventsOf(s.window), events, WindowCutoff(nowUs)))))
      else Err(BadLiveDocument)
    case StoreExperiment(events) => Ok(s.(experiment := ES.StoredAll(s.experiment, ES.Observations(events))))
    case PublishReport => Ok(s.(report := Some(s.experiment)))
    case CommitCursor(cursor) =>
      if CursorLe(s.cursor, Some(cursor)) then Ok(s.(cursor := Some(cursor))) else Err(CursorRetreats)
  }

  /** The state after an attempted effect, and its problem if it had one. */
  ghost predicate Did(before: State, e: Effect, problem: Option<Problem>, after: State) {
    match Applied(before, e)
    case Ok(s) => problem == None && after == s
    case Err(p) => problem == Some(p) && after == before
  }

  datatype Effects = Done | Then(first: Effect, rest: Effects)

  datatype Outcome = Outcome(state: State, problem: Option<Problem>)

  /** Performs the effects in order until one has a problem, or until the run is cut short after `budget` of them. */
  ghost function Run(s: State, effects: Effects, budget: nat): (o: Outcome)
    decreases effects
  {
    if effects.Done? then Outcome(s, None)
    else if budget == 0 then Outcome(s, Some(Interrupted))
    else
      var r := Applied(s, effects.first);
      if r.Err? then Outcome(s, Some(r.error)) else Run(r.value, effects.rest, budget - 1)
  }

  // ------------------------------------------------------------ the sequence of one run

  function HoursOfEvents(events: seq<Event>): set<int> {
    set i | 0 <= i < |events| :: HourOf(events[i].importedAt)
  }

  /** The history after saving the events and pruning. */
  function Kept(t: Table, events: seq<Event>, nowUs: int): Table {
    PrunedBefore(Upserted(t, events), HistoryCutoff(nowUs))
  }

  ghost predicate OldestHour(t: Table, hour: int) {
    hour in HoursOf(t) && NoLessThan(HoursOf(t), hour)
  }

  /** The hours a run rewrites: those of its events and, if rows were pruned, the oldest one left. */
  ghost function HoursToPublish(t: Table, events: seq<Event>, nowUs: int): set<int> {
    var kept := Kept(t, events, nowUs);
    HoursOfEvents(events)
    + if |kept| < |Upserted(t, events)| then set h | h in HoursOf(kept) && OldestHour(kept, h) else {}
  }

  ghost function PublishEach(hours: seq<int>, rest: Effects): Effects {
    if hours == [] then rest else Then(PublishHour(hours[0]), PublishEach(hours[1..], rest))
  }

  ghost function Commit(next: Option<nat>): Effects {
    if next.Some? then Then(CommitCursor(next.value), Done) else Done
  }

  ghost function Confirmation(events: seq<Event>, next: Option<nat>): Effects {
    Then(StoreExperiment(events), Then(PublishReport, Commit(next)))
  }

  ghost function Delivery(events: seq<Event>, nowUs: int, next: Option<nat>): Effects {
    Then(WriteWindow(events, nowUs), Confirmation(events, next))
  }

  /** The effects after the hour files; the cursor comes last. */
  ghost function Finish(events: seq<Event>, nowUs: int, next: Option<nat>): Effects {
    Then(PublishManifest, Then(CleanFiles, Delivery(events, nowUs, next)))
  }

  ghost function Plan(t: Table, events: seq<Event>, nowUs: int, next: Option<nat>): Effects {
    Then(SaveHistory(events), Then(PruneHistory(nowUs),
    PublishEach(Ordered(HoursToPublish(t, events, nowUs)), Finish(events, nowUs, next))))
  }

  /** A polled batch: the cursor it was asked for, the cursor it leads to, its packets. */
  datatype LiveBatch = LiveBatch(previousCursor: Option<nat>, nextCursor: Option<nat>, polled: seq<Polled>)

  /** An attempt at one run, at a generation time, cut short after so many effects. */
  datatype Attempt = Attempt(batch: LiveBatch, nowUs: int, budget: nat) {
    function Events(): seq<Event> {
      Document(batch.polled)
    }

    predicate Valid() {
      forall i :: 0 <= i < |batch.polled| ==> batch.polled[i].Valid()
    }
  }

  ghost function Attempted(s: State, a: Attempt): (o: Outcome) {
    if a.batch.previousCursor != s.cursor then Outcome(s, Some(StaleBatch))
    else Run(s, Plan(s.history, a.Events(), a.nowUs, a.batch.nextCursor), a.budget)
  }

  // ------------------------------------------------------------ the run itself

  /** The published manifest, if there is one, describes the history it was built from. */
  ghost predicate IndexOf(manifest: Option<Manifest>, history: Option<Table>) {
    && (manifest.Some? <==> history.Some?)
    && (manifest.Some? ==> Describes(manifest.value, history.value))
  }

  lemma ManifestPublished(before: State, after: State)
    requires after == before.(manifest := Some(before.history))
    ensures Did(before, PublishManifest, None, after)
  {
  }

  class LiveService {
    const history: LiveHistoryStore
    var files: HourFiles
    var manifest: Option<Manifest>
    var window: Option<seq<Event>>
    var experiment: ES.Table
    var report: Option<ES.Table>
    var cursor: Option<nat>
    ghost var manifestOf: Option<Table>

    ghost predicate Valid()
      reads this
    {
      IndexOf(manifest, manifestOf)
    }

    ghost function Current(): (s: State)
      reads this, history
    {
      State(history.events, files, manifestOf, window, experiment, report, cursor)
    }

    constructor ()
      ensures Valid() && fresh(history)
      ensures Current() == State(map[], map[], None, None, map[], None, None)
    {
      history := new LiveHistoryStore();
      files, manifest, window, experiment, report, cursor := map[], None, None, map[], None, None;
      manifestOf := None;
    }

    method SaveHistory(events: seq<Event>) returns (problem: Option<Problem>)
      requires Valid()
      modifies this, history
      ensures Valid() && Did(old(Current()), Effect.SaveHistory(events), problem, Current())
    {
      var r := history.SaveEvents(events);
      problem := if r.Ok? then None else Some(InvalidHistoryEvent);
    }

    method PruneHistory(nowUs: int) returns (pruned: nat)
      requires Valid()
      modifies this, history
      ensures Valid() && Did(old(Current()), Effect.PruneHistory(nowUs), None, Current())
      ensures pruned == |old(history.events)| - |history.events|
    {
      var r := history.Prune(nowUs, RETENTION_SECONDS);
      pruned := r.value;
    }

    /** `publish_history_hour` */
    method PublishHour(hour: int) returns (problem: Option<Problem>)
      requires Valid()
      modifies this
      ensures Valid() && Did(old(Current()), Effect.PublishHour(hour), problem, Current())
    {
      var r := BuildHourDocument(history, hour);
      if r.Err? {
        return Some(UnpublishableHour);
      }
      files := files[hour := r.value];
      return None;
    }

    /** `publish_history_manifest` */
    method PublishManifest()
      requires Valid()
      modifies this
      ensures Valid() && Did(old(Current()), Effect.PublishManifest, None, Current())
    {
      ghost var before := Current();
      manifestOf := Some(history.events);
      ManifestPublished(before, Current());
      var m := BuildManifest(history);
      manifest := Some(m);
    }

    /** `cleanup_history_publication` */
    method CleanFiles()
      requires Valid()
      modifies this
      ensures Valid() && Did(old(Current()), Effect.CleanFiles, None, Current())
    {
      var removed;
      files, removed := Cleanup(history, files);
    }

    /** Read, merge and write the live document. */
    method WriteWindow(events: seq<Event>, nowUs: int) returns (problem: Option<Problem>)
      requires Valid()
      modifies this
      ensures Valid() && Did(old(Current()), Effect.WriteWindow(events, nowUs), problem, Current())
    {
      var r := MergeLiveDocuments(window, events, nowUs, WINDOW_SECONDS);
      if r.Err? {
        return Some(BadLiveDocument);
      }
      window := Some(r.value);
      return None;
    }

    /** `store_live_document` */
    method StoreExperiment(events: seq<Event>)
      requires Valid()
      modifies this
      ensures Valid() && Did(old(Current()), Effect.StoreExperiment(events), None, Current())
    {
      var inserted;
      experiment, inserted := ES.StoreLiveDocument(experiment, events);
    }

    /** `publish_experiment_report` */
    method PublishReport()
      requires Valid()
      modifies this
      ensures Valid() && Did(old(Current()), Effect.PublishReport, None, Current())
    {
      report := Some(experiment);
    }

    /** `save_live_cursor`, which refuses to go back. */
    method SaveLiveCursor(next: nat) returns (problem: Option<Problem>)
      requires Valid()
      modifies this
      ensures Valid() && Did(old(Current()), CommitCursor(next), problem, Current())
      ensures problem == None <==> old(cursor) == None || old(cursor).value <= next
      ensures cursor == if problem == None then Some(next) else old(cursor)
    {
      if cursor.Some? && next < cursor.value {
        return Some(CursorRetreats);
      }
      cursor := Some(next);
      return None;
    }

    /** `_history_hours_for_events` and the oldest hour left by pruning. */
    method HoursOfRun(events: seq<Event>, pruned: nat) returns (hours: set<int>)
      requires Valid()
      ensures hours == HoursOfEvents(events)
                       + if pruned > 0
                         then set h | h in HoursOf(history.events) && OldestHour(history.events, h)
                         else {}
    {
      var starts := SortedSet(set i | 0 <= i < |events| :: HourOf(events[i].importedAt));
      OrderedAscends(HoursOfEvents(events));
      hours := set h | h in starts;
      assert hours == HoursOfEvents(events);
      if pruned > 0 {
        var oldest, _ := history.TimeBounds();
        if oldest.Some? {
          hours := hours + {HourOf(oldest.value)};
          OldestEventGivesOldestHour(history.events, oldest.value);
        }
      }
    }

    /** Saving the events and pruning. */
    method UpdateHistory(events: seq<Event>, nowUs: int, budget: nat, ghost rest: Effects)
      returns (problem: Option<Problem>, pruned: nat)
      requires Valid()
      modifies this, history
      ensures Valid()
      ensures var o := Run(old(Current()), Then(Effect.SaveHistory(events), Then(Effect.PruneHistory(nowUs), rest)),
                           budget);
              if problem.Some? then o == Outcome(Current(), problem)
              else budget >= 2 && o == Run(Current(), rest, budget - 2)
      ensures problem.None? ==> history.events == Kept(old(history.events), events, nowUs)
                                && pruned == |Upserted(old(history.events), events)| - |history.events|
    {
      pruned := 0;
      ghost var start := Current();
      if budget == 0 {
        return Some(Interrupted), 0;
      }
      problem := SaveHistory(events);
      ghost var saved := Current();
      RunStep(start, Effect.SaveHistory(events), problem, saved, Then(Effect.PruneHistory(nowUs), rest), budget);
      if problem.Some? {
        return;
      }
      if budget == 1 {
        return Some(Interrupted), 0;
      }
      pruned := PruneHistory(nowUs);
      RunStep(saved, Effect.PruneHistory(nowUs), None, Current(), rest, budget - 1);
    }

    /** The run, cut short after `budget` effects; on success, the cursor it committed. */
    method RunOnce(batch: LiveBatch, nowUs: int, budget: nat) returns (r: Result<Option<nat>, Problem>)
      requires Valid()
      modifies this, history
      ensures Valid()
      ensures Attempted(old(Current()), Attempt(batch, nowUs, budget))
           == Outcome(Current(), if r.Ok? then None else Some(r.error))
      ensures r.Ok? ==> r.value == batch.nextCursor
    {
      if batch.previousCursor != cursor {
        return Err(StaleBatch);
      }
      var events := BuildEvents(batch.polled);
      ghost var finish := Finish(events, nowUs, batch.nextCursor);
      ghost var hoursToPublish := HoursToPublish(history.events, events, nowUs);
      var problem, pruned := UpdateHistory(events, nowUs, budget, PublishEach(Ordered(hoursToPublish), finish));
      if problem.Some? {
        return Err(problem.value);
      }
      var hours := HoursOfRun(events, pruned);
      assert hours == hoursToPublish;
      var sorted := SortedSet(hours);
      var left;
      problem, left := PublishHours(sorted, budget - 2, finish);
      if problem.Some? {
        return Err(problem.value);
      }
      problem := Conclude(events, nowUs, batch.nextCursor, left);
      if problem.Some? {
        return Err(problem.value);
      }
      return Ok(batch.nextCursor);
    }

    /** The loop over the hours. */
    method PublishHours(hours: seq<int>, budget: nat, ghost rest: Effects) returns (problem: Option<Problem>, left: nat)
      requires Valid()
      modifies this
      ensures Valid()
      ensures Run(old(Current()), PublishEach(hours, rest), budget)
           == if problem.Some? then Outcome(Current(), problem) else Run(Current(), rest, left)
    {
      left := budget;
      for i := 0 to |hours|
        invariant Valid()
        invariant Run(old(Current()), PublishEach(hours, rest), budget)
               == Run(Current(), PublishEach(hours[i..], rest), left)
      {
        if left == 0 {
          return Some(Interrupted), left;
        }
        ghost var before := Current();
        problem := PublishHour(hours[i]);
        assert hours[i..][1..] == hours[i + 1..];
        RunStep(before, Effect.PublishHour(hours[i]), problem, Current(), PublishEach(hours[i + 1..], rest), left);
        if problem.Some? {
          return problem, left;
        }
        left := left - 1;
      }
      problem := None;
    }

    /** The index and the stale files, then the rest. */
    method Conclude(events: seq<Event>, nowUs: int, next: Option<nat>, budget: nat) returns (problem: Option<Problem>)
      requires Valid()
      modifies this
      ensures Valid()
      ensures Run(old(Current()), Finish(events, nowUs, next), budget) == Outcome(Current(), problem)
    {
      ghost var start := Current();
      if budget == 0 {
        return Some(Interrupted);
      }
      PublishManifest();
      RunStep(start, Effect.PublishManifest, None, Current(), Then(Effect.CleanFiles, Delivery(events, nowUs, next)),
              budget);
      problem := CleanAndDeliver(events, nowUs, next, budget - 1);
    }

    /** The stale files, then the rest. */
    method CleanAndDeliver(events: seq<Event>, nowUs: int, next: Option<nat>, budget: nat)
      returns (problem: Option<Problem>)
      requires Valid()
      modifies this
      ensures Valid()
      ensures Run(old(Current()), Then(Effect.CleanFiles, Delivery(events, nowUs, next)), budget)
           == Outcome(Current(), problem)
    {
      ghost var start := Current();
      if budget == 0 {
        return Some(Interrupted);
      }
      CleanFiles();
      RunStep(start, Effect.CleanFiles, None, Current(), Delivery(events, nowUs, next), budget);
      problem := Deliver(events, nowUs, next, budget - 1);
    }

    /** The live document, then the rest. */
    method Deliver(events: seq<Event>, nowUs: int, next: Option<nat>, budget: nat) returns (problem: Option<Problem>)
      requires Valid()
      modifies this
      ensures Valid()
      ensures Run(old(Current()), Delivery(events, nowUs, next), budget) == Outcome(Current(), problem)
    {
      ghost var start := Current();
      if budget == 0 {
        return Some(Interrupted);
      }
      problem := WriteWindow(events, nowUs);
      RunStep(start, Effect.WriteWindow(events, nowUs), problem, Current(), Confirmation(events, next), budget);
      if problem.None? {
        problem := Confirm(events, next, budget - 1);
      }
    }

    /** The experiment, its report and, last, the cursor. */
    method Confirm(events: seq<Event>, next: Option<nat>, budget: nat) returns (problem: Option<Problem>)
      requires Valid()
      modifies this
      ensures Valid()
      ensures Run(old(Current()), Confirmation(events, next), budget) == Outcome(Current(), problem)
    {
      ghost var rest := Commit(next);
      ghost var start := Current();
      if budget == 0 {
        return Some(Interrupted);
      }
      StoreExperiment(events);
      ghost var stored := Current();
      RunStep(start, Effect.StoreExperiment(events), None, stored, Then(Effect.PublishReport, rest), budget);
      if budget == 1 {
        return Some(Interrupted);
      }
      PublishReport();
      ghost var reported := Current();
      RunStep(stored, Effect.PublishReport, None, reported, rest, budget - 1);
      problem := None;
      if next.Some? {
        if budget == 2 {
          return Some(Interrupted);
        }
        problem := SaveLiveCursor(next.value);
        RunStep(reported, CommitCursor(next.value), problem, Current(), Done, budget - 2);
      }
    }
  }

  lemma {:induction false} RunStep(before: State, e: Effect, problem: Option<Problem>, after: State, rest: Effects,
                                   left: nat)
    requires Did(before, e, problem, after) && left > 0
    ensures Run(before, Then(e, rest), left)
         == if problem.Some? then Outcome(after, problem) else Run(after, rest, left - 1)
  {
  }

  lemma OldestEventGivesOldestHour(t: Table, oldest: int)
    requires exists id :: id in t && t[id].importedAt == oldest
    requires forall id :: id in t ==> oldest <= t[id].importedAt
    ensures (set h | h in HoursOf(t) && OldestHour(t, h)) == {HourOf(oldest)}
  {
    var id :| id in t && t[id].importedAt == oldest;
    assert HourOf(t[id].importedAt) in HoursOf(t);
    forall h | h in HoursOf(t) ensures HourOf(oldest) <= h {
      var i :| i in t && HourOf(t[i].importedAt) == h;
      HourMonotone(oldest, t[i].importedAt);
    }
  }

  lemma HourMonotone(a: int, b: int)
    requires a <= b
    ensures HourOf(a) <= HourOf(b)
  {
  }
}
