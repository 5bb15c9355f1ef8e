/** Bookkeeping of source executions (`storage.py`): begin, finish, the statistics published from it,
    and the pruning that must not change them. */
module SourceRuns {
  import opened Basics
  import opened Texts
  import Consolidation
  import Ordering

  type Source = Consolidation.Source

  const MESSAGE_LIMIT: nat := 1000

  datatype Run = Run(source: Source, startedAt: int, finishedAt: Option<int>, success: Option<bool>,
                     recordsReceived: int, errorMessage: Option<string>) {
    /** The CHECK constraints of the table, and what `finish_source_run` demands besides: a run carries a
        message exactly when it failed, of 1 to 1000 characters without blanks at its ends. */
    predicate Valid() {
      && (finishedAt.Some? <==> success.Some?)
      && (finishedAt.Some? ==> startedAt <= finishedAt.value)
      && (success == Some(false) <==> errorMessage.Some?)
      && (errorMessage.Some?
          ==> errorMessage.value == Strip(errorMessage.value) && 1 <= |errorMessage.value| <= MESSAGE_LIMIT)
      && recordsReceived >= 0
    }

    predicate Ended(of: Source, how: bool) {
      source == of && success == Some(how)
    }

    /** COALESCE(finished_at, started_at) */
    function Moment(): int {
      if finishedAt.Some? then finishedAt.value else startedAt
    }
  }

  type Runs = map<nat, Run>

  /** The row order finished_at DESC, id DESC: a comes before b. */
  predicate Ahead(runs: Runs, a: nat, b: nat)
    requires a in runs && b in runs
  {
    runs[a].Moment() > runs[b].Moment() || (runs[a].Moment() == runs[b].Moment() && a > b)
  }

  /** Position 1 of its partition (source, success): no run of the partition comes before it. */
  predicate IsTop(runs: Runs, source: Source, how: bool, id: nat) {
    && id in runs && runs[id].Ended(source, how)
    && forall other :: other in runs && runs[other].Ended(source, how) ==> !Ahead(runs, other, id)
  }

  lemma TopIsUnique(runs: Runs, source: Source, how: bool, a: nat, b: nat)
    requires IsTop(runs, source, how, a) && IsTop(runs, source, how, b)
    ensures a == b
  {
  }

  datatype Statistics = Statistics(lastSuccess: Option<int>, recordsReceived: int,
                                   lastErrorAt: Option<int>, lastError: Option<string>)

  /** The statistics a source has, given the top successful and failed run, if any. */
  ghost predicate Summarizes(runs: Runs, source: Source, s: Statistics) {
    && (forall id :: IsTop(runs, source, true, id) ==>
          s.lastSuccess == runs[id].finishedAt && s.recordsReceived == runs[id].recordsReceived)
    && (!HasEnded(runs, source, true) ==> s.lastSuccess == None && s.recordsReceived == 0)
    && (forall id :: IsTop(runs, source, false, id) ==>
          s.lastErrorAt == runs[id].finishedAt && s.lastError == runs[id].errorMessage)
    && (!HasEnded(runs, source, false) ==> s.lastErrorAt == None && s.lastError == None)
  }

  /** What `prune` keeps of the runs. */
  function Kept(runs: Runs, before: int): Runs {
    map id | id in runs && (runs[id].Moment() >= before || IsTopOfItsPartition(runs, id)) :: runs[id]
  }

  predicate IsTopOfItsPartition(runs: Runs, id: nat)
    requires id in runs
  {
    runs[id].success.Some? && IsTop(runs, runs[id].source, runs[id].success.value, id)
  }

  datatype RunError =
    | InvalidRunId | InvalidRecords | MessageTooLong | MessageMismatch
    | NoSuchRun | AlreadyFinished | EndsBeforeStart

  /** A message without the blanks at its ends; a blank one is none. */
  function Normalized(message: Option<string>): Option<string> {
    if message.None? || Strip(message.value) == "" then None else Some(Strip(message.value))
  }

  /** What the arguments of `finish_source_run` have to be like, whatever the runs are. */
  predicate Acceptable(id: int, success: bool, records: int, message: Option<string>) {
    && id >= 1 && records >= 0
    && (Normalized(message).Some? ==> |Normalized(message).value| <= MESSAGE_LIMIT)
    && (success <==> Normalized(message).None?)
  }

  /** Only an open run can be closed, and not before it began. */
  predicate Closable(runs: Runs, id: int, finishedAt: int) {
    id >= 0 && id in runs && runs[id].finishedAt.None? && runs[id].startedAt <= finishedAt
  }

  class SourceRunTable {
    var runs: Runs
    var nextId: nat

    ghost predicate Valid()
      reads this
    {
      && (forall id :: id in runs ==> runs[id].Valid())
      && (forall id :: id in runs ==> id < nextId)
    }

    constructor ()
      ensures Valid() && runs == map[]
    {
      runs, nextId := map[], 1;
    }

    /** `begin_source_run`: a fresh id, never used before (AUTOINCREMENT). */
    method Begin(source: Source, startedAt: int) returns (id: nat)
      requires Valid()
      modifies this
      ensures Valid()
      ensures id == old(nextId) && nextId == id + 1
      ensures runs == old(runs)[id := Run(source, startedAt, None, None, 0, None)]
    {
      id := nextId;
      nextId := nextId + 1;
      runs := runs[id := Run(source, startedAt, None, None, 0, None)];
    }

    /** `finish_source_run` */
    method Finish(id: int, finishedAt: int, success: bool, records: int, message: Option<string>)
      returns (r: Result<(), RunError>)
      requires Valid()
      modifies this`runs
      ensures Valid()
      ensures r.Ok? <==> Acceptable(id, success, records, message) && Closable(old(runs), id, finishedAt)
      ensures r.Ok? <==> && id in old(runs) && old(runs)[id].finishedAt.None? && old(runs)[id].startedAt <= finishedAt
                         && id >= 1 && records >= 0
                         && (success ==> message.None? || Strip(message.value) == "")
                         && (!success ==> message.Some? && 1 <= |Strip(message.value)| <= 1000)
      ensures r.Ok? ==> && runs.Keys == old(runs).Keys
                        && runs[id] == Run(old(runs)[id].source, old(runs)[id].startedAt, Some(finishedAt),
                                           Some(success), records, Normalized(message))
                        && forall other :: other in runs && other != id ==> runs[other] == old(runs)[other]
      ensures r.Err? ==> runs == old(runs)
      ensures r == Err(NoSuchRun) <==> Acceptable(id, success, records, message) && id !in old(runs)
      ensures r == Err(AlreadyFinished)
         <==> Acceptable(id, success, records, message) && id in old(runs) && old(runs)[id].finishedAt.Some?
      ensures r == Err(EndsBeforeStart)
         <==> && Acceptable(id, success, records, message) && id in old(runs)
              && old(runs)[id].finishedAt.None? && finishedAt < old(runs)[id].startedAt
      ensures r == Err(InvalidRunId) <==> id < 1
      ensures r == Err(InvalidRecords) <==> id >= 1 && records < 0
      ensures r == Err(MessageTooLong) <==> id >= 1 && records >= 0 && message.Some? && |Strip(message.value)| > 1000
    {
      if id < 1 {
        return Err(InvalidRunId);
      }
      if records < 0 {
        return Err(InvalidRecords);
      }
      var normalized := NormalizeMessage(message);
      if normalized.Some? && |normalized.value| > MESSAGE_LIMIT {
        return Err(MessageTooLong);
      }
      if success && normalized.Some? {
        return Err(MessageMismatch);
      }
      if !success && normalized.None? {
        return Err(MessageMismatch);
      }
      if id !in runs {
        return Err(NoSuchRun);
      }
      if runs[id].finishedAt.Some? {
        return Err(AlreadyFinished);
      }
      if finishedAt < runs[id].startedAt {
        return Err(EndsBeforeStart);
      }
      runs := runs[id := runs[id].(finishedAt := Some(finishedAt), success := Some(success),
                                   recordsReceived := records, errorMessage := normalized)];
      return Ok(());
    }

    /** `source_statistics` for one source. */
    method StatisticsOf(source: Source) returns (s: Statistics)
      requires Valid()
      ensures Summarizes(runs, source, s)
    {
      var successful := Top(runs, source, true);
      var failed := Top(runs, source, false);
      s := Statistics(None, 0, None, None);
      if successful.Some? {
        forall id | IsTop(runs, source, true, id) ensures id == successful.value {
          TopIsUnique(runs, source, true, id, successful.value);
        }
        s := s.(lastSuccess := runs[successful.value].finishedAt,
                recordsReceived := runs[successful.value].recordsReceived);
      }
      if failed.Some? {
        forall id | IsTop(runs, source, false, id) ensures id == failed.value {
          TopIsUnique(runs, source, false, id, failed.value);
        }
        s := s.(lastErrorAt := runs[failed.value].finishedAt, lastError := runs[failed.value].errorMessage);
      }
    }

    /** The part of `prune` that concerns the runs; no statistics change. */
    method Prune(before: int) returns (deleted: nat)
      requires Valid()
      modifies this`runs
      ensures Valid()
      ensures runs == Kept(old(runs), before)
      ensures deleted == |old(runs)| - |runs|
      ensures forall source, s :: Summarizes(runs, source, s) <==> Summarizes(old(runs), source, s)
    {
      forall source, s ensures Summarizes(Kept(runs, before), source, s) <==> Summarizes(runs, source, s) {
        PruneKeepsStatistics(runs, before, source, s);
      }
      var kept := Kept(runs, before);
      assert kept.Keys <= runs.Keys;
      Ordering.SubsetSize(kept.Keys, runs.Keys);
      deleted := |runs| - |kept|;
      runs := kept;
    }
  }

  method NormalizeMessage(message: Option<string>) returns (normalized: Option<string>)
    ensures normalized == Normalized(message)
    ensures normalized.Some? ==> normalized.value == Strip(normalized.value) && normalized.value != ""
  {
    if message.None? {
      return None;
    }
    var stripped := Strip(message.value);
    StripOnce(message.value);
    return if stripped == "" then None else Some(stripped);
  }

  /** ORDER BY finished_at DESC, id DESC LIMIT 1 over the runs of a source with one outcome. */
  method Top(runs: Runs, source: Source, how: bool) returns (top: Option<nat>)
    ensures top.Some? ==> IsTop(runs, source, how, top.value)
    ensures top.None? ==> !HasEnded(runs, source, how)
  {
    top := None;
    var rest := runs.Keys;
    while rest != {}
      invariant rest <= runs.Keys
      invariant top.Some? ==> top.value in runs && top.value !in rest && runs[top.value].Ended(source, how)
      invariant forall id :: id in runs && id !in rest && runs[id].Ended(source, how) ==>
                  top.Some? && !Ahead(runs, id, top.value)
      decreases rest
    {
      var id :| id in rest;
      rest := rest - {id};
      if runs[id].Ended(source, how) {
        if top.None? || Ahead(runs, id, top.value) {
          top := Some(id);
        }
      }
    }
  }

  // ------------------------------------------------------------ top runs

  lemma {:induction false} GreatestExists(runs: Runs, ids: set<nat>, id: nat) returns (top: nat)
    requires ids <= runs.Keys && id in ids
    ensures top in ids && forall other :: other in ids ==> !Ahead(runs, other, top)
    decreases ids
  {
    if ids == {id} {
      top := id;
    } else {
      var next :| next in ids && next != id;
      var best := GreatestExists(runs, ids - {id}, next);
      top := if Ahead(runs, id, best) then id else best;
      forall other | other in ids ensures !Ahead(runs, other, top) {
        if other != id {
          assert !Ahead(runs, other, best);
        }
      }
    }
  }

  ghost predicate HasEnded(runs: Runs, source: Source, how: bool) {
    exists id :: id in runs && runs[id].Ended(source, how)
  }

  /** A nonempty partition has a top run. */
  lemma TopExists(runs: Runs, source: Source, how: bool) returns (top: nat)
    requires HasEnded(runs, source, how)
    ensures IsTop(runs, source, how, top) && IsTopOfItsPartition(runs, top)
  {
    var partition := set other | other in runs && runs[other].Ended(source, how);
    var id :| id in runs && runs[id].Ended(source, how);
    top := GreatestExists(runs, partition, id);
  }

  // ------------------------------------------------------------ pruning keeps the statistics

  lemma TopSurvives(runs: Runs, before: int, source: Source, how: bool, id: nat)
    ensures IsTop(Kept(runs, before), source, how, id) <==> IsTop(runs, source, how, id)
  {
    var kept := Kept(runs, before);
    if IsTop(runs, source, how, id) {
      assert IsTopOfItsPartition(runs, id);
    }
    if IsTop(kept, source, how, id) {
      assert id in runs && runs[id].Ended(source, how);
      var top := TopExists(runs, source, how);
      assert top in kept && IsTop(kept, source, how, top);
      TopIsUnique(kept, source, how, id, top);
    }
  }

  lemma PartitionSurvives(runs: Runs, before: int, source: Source, how: bool)
    ensures HasEnded(runs, source, how) <==> HasEnded(Kept(runs, before), source, how)
  {
    if HasEnded(runs, source, how) {
      var top := TopExists(runs, source, how);
      assert top in Kept(runs, before) && Kept(runs, before)[top].Ended(source, how);
    }
  }

  /** Pruning, at any limit, leaves the statistics of every source as they were: the latest success
      and the latest error of each source outlive their age. */
  lemma PruneKeepsStatistics(runs: Runs, before: int, source: Source, s: Statistics)
    ensures Summarizes(Kept(runs, before), source, s) <==> Summarizes(runs, source, s)
  {
    forall id, how ensures IsTop(Kept(runs, before), source, how, id) <==> IsTop(runs, source, how, id) {
      TopSurvives(runs, before, source, how, id);
    }
    PartitionSurvives(runs, before, source, true);
    PartitionSurvives(runs, before, source, false);
  }

  /** The statistics of a source are determined by its runs. */
  lemma StatisticsAreUnique(runs: Runs, source: Source, s: Statistics, s': Statistics)
    requires Summarizes(runs, source, s) && Summarizes(runs, source, s')
    ensures s == s'
  {
    if HasEnded(runs, source, true) {
      var top := TopExists(runs, source, true);
    }
    if HasEnded(runs, source, false) {
      var top := TopExists(runs, source, false);
    }
  }

  /** The statistics show an error exactly when some run of the source has failed, and its message is not
      blank. */
  lemma ErrorsHaveMessages(runs: Runs, source: Source, s: Statistics)
    requires forall id :: id in runs ==> runs[id].Valid()
    requires Summarizes(runs, source, s)
    ensures s.lastError.Some? <==> HasEnded(runs, source, false)
    ensures s.lastErrorAt.Some? <==> HasEnded(runs, source, false)
    ensures s.lastSuccess.Some? <==> HasEnded(runs, source, true)
    ensures s.lastError.Some? ==> s.lastError.value == Strip(s.lastError.value) != ""
  {
    if HasEnded(runs, source, false) {
      var top := TopExists(runs, source, false);
    }
    if HasEnded(runs, source, true) {
      var top := TopExists(runs, source, true);
    }
  }

  // ------------------------------------------------------------ what the statistics mean

  /** The run of a source with this outcome that ended last; of several at one moment the one begun last. */
  predicate EndedLast(runs: Runs, source: Source, how: bool, id: nat) {
    && id in runs && runs[id].source == source && runs[id].success == Some(how) && runs[id].finishedAt.Some?
    && forall other :: other in runs && runs[other].source == source && runs[other].success == Some(how)
                       && runs[other].finishedAt.Some? ==>
         && runs[other].finishedAt.value <= runs[id].finishedAt.value
         && (runs[other].finishedAt == runs[id].finishedAt ==> other <= id)
  }

  /** The statistics of a source are those of its success and of its failure that ended last. */
  lemma StatisticsTellLastRuns(runs: Runs, source: Source, s: Statistics)
    requires forall id :: id in runs ==> runs[id].Valid()
    requires Summarizes(runs, source, s)
    ensures forall id :: EndedLast(runs, source, true, id) ==>
              s.lastSuccess == runs[id].finishedAt && s.recordsReceived == runs[id].recordsReceived
    ensures forall id :: EndedLast(runs, source, false, id) ==>
              s.lastErrorAt == runs[id].finishedAt && s.lastError == runs[id].errorMessage
    ensures (forall id :: id in runs && runs[id].source == source ==> runs[id].success != Some(true)) ==>
              s.lastSuccess == None && s.recordsReceived == 0
    ensures (forall id :: id in runs && runs[id].source == source ==> runs[id].success != Some(false)) ==>
              s.lastErrorAt == None && s.lastError == None
    ensures forall how :: (exists id :: id in runs && runs[id].source == source && runs[id].success == Some(how)) ==>
              exists id :: EndedLast(runs, source, how, id)
  {
    forall id, how ensures EndedLast(runs, source, how, id) <==> IsTop(runs, source, how, id) {
      TopEndedLast(runs, source, how, id);
    }
    forall how | exists id :: id in runs && runs[id].source == source && runs[id].success == Some(how)
      ensures exists id :: EndedLast(runs, source, how, id)
    {
      var id :| id in runs && runs[id].source == source && runs[id].success == Some(how);
      assert runs[id].Ended(source, how);
      var top := TopExists(runs, source, how);
    }
  }

  lemma TopEndedLast(runs: Runs, source: Source, how: bool, id: nat)
    requires forall other :: other in runs ==> runs[other].Valid()
    ensures EndedLast(runs, source, how, id) <==> IsTop(runs, source, how, id)
  {
  }

  /** Pruning leaves a run exactly when it is as late as the limit, by its end or else by its beginning, or is
      the one of its source and outcome that ended last. */
  lemma PruneKeepsIff(runs: Runs, before: int, id: nat)
    requires forall other :: other in runs ==> runs[other].Valid()
    ensures id in Kept(runs, before)
       <==> && id in runs
            && (|| (runs[id].finishedAt.Some? && before <= runs[id].finishedAt.value)
                || (runs[id].finishedAt.None? && before <= runs[id].startedAt)
                || (runs[id].success.Some? && EndedLast(runs, runs[id].source, runs[id].success.value, id)))
    ensures id in Kept(runs, before) ==> Kept(runs, before)[id] == runs[id]
  {
    if id in runs && runs[id].success.Some? {
      TopEndedLast(runs, runs[id].source, runs[id].success.value, id);
    }
  }
}
