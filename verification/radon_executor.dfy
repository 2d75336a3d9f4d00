/** One FRENDS Radon run with its parts wired as `RadonExecutor` wires them: the events of the
    source pass the configured filter, then the already-reported filter against the watermark
    stored for the filter configuration; the report is sent through the sender the e-mail
    configuration builds, and the newest reported event becomes the new watermark. */
module RadonExecutor {
  import opened Wrappers
  import opened Events
  import Platform
  import HashBuilder
  import FilterConfiguration
  import EmailConfiguration
  import FX = FilterExpression
  import LogEventFilter
  import AlreadyReportedFilter
  import EventIdentificationStore
  import RadonProgram

  /** The store after a run, the executor calls made, and how the run ended. */
  datatype RunResult = RunResult(
    store: EventIdentificationStore.Store,
    trace: seq<RadonProgram.ExecutorAction>,
    outcome: Result<RadonProgram.RadonResult, string>)

  /** `RadonExecutor.SendReport`: building the sender can fail validation; otherwise
      `smtpError` is what delivery raised, if anything. */
  function SendError(ec: EmailConfiguration.EmailConfig, smtpError: Option<string>): (r: Option<string>)
    ensures EmailConfiguration.GetReportSender(ec).Failure? ==> r == Some(EmailConfiguration.GetReportSender(ec).error)
    ensures EmailConfiguration.GetReportSender(ec).Success? ==> r == smtpError
  {
    match EmailConfiguration.GetReportSender(ec)
    case Failure(m) => Some(m)
    case Success(_) => smtpError
  }

  /** `RadonExecutor.GetLogEvents`: the stored watermark is read first, then the filtered events;
      the events that come out are the leading filtered events that are newer than the watermark. */
  function GetLogEvents(
    p: Platform.Primitives, fc: FilterConfiguration.FilterConfig, s: EventIdentificationStore.Store,
    source: seq<LogEvent>, tokenise: string -> Result<seq<FX.Token>, string>): (r: Result<seq<LogEvent>, string>)
    ensures var stored := EventIdentificationStore.Get(p, s, EventIdentificationStore.RecordName(p, fc));
            stored.Failure? ==> r == Failure(stored.error)
    ensures var stored := EventIdentificationStore.Get(p, s, EventIdentificationStore.RecordName(p, fc));
            var filtered := LogEventFilter.ReadEvents(source, fc, tokenise);
            && (stored.Success? && filtered.Failure? ==> r == Failure(filtered.error))
            && (stored.Success? && filtered.Success? ==>
                  && r.Success? && |r.value| <= |filtered.value| && r.value == filtered.value[..|r.value|]
                  && (stored.value.None? ==> r.value == filtered.value)
                  && (stored.value.Some? ==>
                        && (forall i :: 0 <= i < |r.value| ==> AlreadyReportedFilter.StillNew(p, stored.value.value, r.value[i]))
                        && (|r.value| < |filtered.value| ==>
                              !AlreadyReportedFilter.StillNew(p, stored.value.value, filtered.value[|r.value|]))))
    ensures r.Success? ==> |r.value| <= |source| && forall e :: e in r.value ==> e in source
  {
    var stored :- EventIdentificationStore.Get(p, s, EventIdentificationStore.RecordName(p, fc));
    var filtered :- LogEventFilter.ReadEvents(source, fc, tokenise);
    var events := AlreadyReportedFilter.ReadEvents(p, stored, filtered);
    assert forall e :: e in events ==> e in filtered by {
      forall e | e in events ensures e in filtered {
        var i :| 0 <= i < |events| && events[i] == e;
        assert filtered[i] == e;
      }
    }
    Success(events)
  }

  /** What writing the record file raised: the message, and whether `FileMode.Create` had already
      truncated the record when it failed. */
  datatype WriteFailure = WriteFailure(message: string, truncated: bool)

  /** Whether the run called `SaveAlreadyReportedEventIdentification`. */
  predicate Saves(trace: seq<RadonProgram.ExecutorAction>) {
    exists i :: 0 <= i < |trace| && trace[i].SaveIdentification?
  }

  /** One run from the given store. `smtpError` is what delivering the mail raises, if anything,
      and `writeError` what writing the record file raises, if anything. A write that fails before
      the file is opened leaves the old record; one that fails after leaves it empty. */
  function RunOnce(
    p: Platform.Primitives, fc: FilterConfiguration.FilterConfig, ec: EmailConfiguration.EmailConfig,
    s: EventIdentificationStore.Store, source: seq<LogEvent>,
    tokenise: string -> Result<seq<FX.Token>, string>,
    smtpError: Option<string>, writeError: Option<WriteFailure>): (r: RunResult)
    ensures RadonProgram.SaveFollowsSend(r.trace)
    ensures r.trace != [] ==> r.trace[0].SendReport? && forall e :: e in r.trace[0].events ==> e in source
    ensures Saves(r.trace) ==> |r.trace| == 2 && r.trace[1].SaveIdentification?
    ensures !Saves(r.trace) || (writeError.Some? && !writeError.value.truncated) ==> r.store == EventIdentificationStore.Open(s)
    ensures Saves(r.trace) && writeError.Some? && writeError.value.truncated ==>
              r.store == EventIdentificationStore.SaveInterrupted(EventIdentificationStore.Open(s),
                           EventIdentificationStore.RecordName(p, fc))
    ensures Saves(r.trace) && writeError.None? ==>
              r.store == EventIdentificationStore.Save(p, EventIdentificationStore.Open(s),
                           EventIdentificationStore.RecordName(p, fc), r.trace[1].event).value
    ensures r.outcome.Success? && r.outcome.value.actionSkipped ==> r.trace == []
    ensures r.outcome.Success? && !r.outcome.value.actionSkipped ==> r.trace != [] && r.trace[0].events != []
  {
    var ready := EventIdentificationStore.Open(s);
    var key := EventIdentificationStore.RecordName(p, fc);
    match GetLogEvents(p, fc, ready, source, tokenise)
    case Failure(m) => RunResult(ready, [], Failure(m))
    case Success(events) =>
      var sendError := SendError(ec, smtpError);
      var saveError := if writeError.Some? then Some(writeError.value.message) else None;
      var run := RadonProgram.ExecuteRadon(events, sendError, saveError, ec.recipientsAsString);
      assert Saves(run.trace) <==> events != [] && sendError.None?;
      var after :=
        if !Saves(run.trace) then ready
        else if writeError.None? then EventIdentificationStore.Save(p, ready, key, events[0]).value
        else if writeError.value.truncated then EventIdentificationStore.SaveInterrupted(ready, key)
        else ready;
      RunResult(after, run.trace, run.outcome)
  }

  /** Whether a run mailed a report and ended well. */
  predicate Reported(r: RunResult) {
    r.outcome.Success? && !r.outcome.value.actionSkipped
  }

  /** After a run that mailed a report, the next run over the same events reads them against the
      watermark of the newest reported event, held to the whole second. */
  lemma WatermarkAfterReport(
    p: Platform.Primitives, fc: FilterConfiguration.FilterConfig, ec: EmailConfiguration.EmailConfig,
    s: EventIdentificationStore.Store, source: seq<LogEvent>,
    tokenise: string -> Result<seq<FX.Token>, string>, smtpError: Option<string>)
    requires Platform.UniversalRoundTrip(p)
    ensures var r1 := RunOnce(p, fc, ec, s, source, tokenise, smtpError, None);
            var filtered := LogEventFilter.ReadEvents(source, fc, tokenise);
            Reported(r1) ==>
              && filtered.Success? && filtered.value != [] && r1.trace[0].events[0] == filtered.value[0]
              && EventIdentificationStore.Open(r1.store) == r1.store
              && GetLogEvents(p, fc, r1.store, source, tokenise)
                 == Success(AlreadyReportedFilter.ReadEvents(p, Some(Watermark(p, filtered.value[0])), filtered.value))
  {
    var r1 := RunOnce(p, fc, ec, s, source, tokenise, smtpError, None);
    if Reported(r1) {
      var ready := EventIdentificationStore.Open(s);
      var key := EventIdentificationStore.RecordName(p, fc);
      var events := GetLogEvents(p, fc, ready, source, tokenise).value;
      var filtered := LogEventFilter.ReadEvents(source, fc, tokenise).value;
      assert events[0] == filtered[0];
      EventIdentificationStore.SaveThenGet(p, ready, key, events[0]);
    }
  }

  /** What the store hands back for a saved event: its hash, and its timestamp to the second. */
  function Watermark(p: Platform.Primitives, e: LogEvent): (w: EventIdentification)
    ensures w.timeStampUtc <= e.timeGenerated < w.timeStampUtc + Platform.TicksPerSecond
    ensures w.timeStampUtc == e.timeGenerated <==> e.timeGenerated % Platform.TicksPerSecond == 0
  {
    EventIdentification(HashBuilder.EventHash(p, e), Platform.WholeSeconds(e.timeGenerated))
  }

  /** After a run that mailed a report whose newest event has a whole-second timestamp, a second
      run over the same events finds nothing new: it sends nothing, saves nothing and reports the
      run as skipped. */
  lemma SecondRunIsSkipped(
    p: Platform.Primitives, fc: FilterConfiguration.FilterConfig, ec: EmailConfiguration.EmailConfig,
    s: EventIdentificationStore.Store, source: seq<LogEvent>,
    tokenise: string -> Result<seq<FX.Token>, string>,
    smtpError: Option<string>, smtpError2: Option<string>, writeError2: Option<WriteFailure>)
    requires Platform.UniversalRoundTrip(p)
    ensures var r1 := RunOnce(p, fc, ec, s, source, tokenise, smtpError, None);
            var r2 := RunOnce(p, fc, ec, r1.store, source, tokenise, smtpError2, writeError2);
            Reported(r1) && r1.trace[0].events[0].timeGenerated % Platform.TicksPerSecond == 0 ==>
              && r2.trace == []
              && r2.outcome == Success(RadonProgram.RadonResult(RadonProgram.NoEventsMessage, true, true, 0))
              && r2.store == r1.store
  {
    WatermarkAfterReport(p, fc, ec, s, source, tokenise, smtpError);
    var r1 := RunOnce(p, fc, ec, s, source, tokenise, smtpError, None);
    if Reported(r1) {
      var filtered := LogEventFilter.ReadEvents(source, fc, tokenise).value;
      AlreadyReportedFilter.NewestReportedGivesNothing(p, filtered);
    }
  }

  /** The watermark is stored to the second only: when the newest reported event has a fraction
      of a second, a second run over the same events reports that event again. */
  lemma SubSecondNewestIsReportedAgain(
    p: Platform.Primitives, fc: FilterConfiguration.FilterConfig, ec: EmailConfiguration.EmailConfig,
    s: EventIdentificationStore.Store, source: seq<LogEvent>,
    tokenise: string -> Result<seq<FX.Token>, string>,
    smtpError: Option<string>, smtpError2: Option<string>, writeError2: Option<WriteFailure>)
    requires Platform.UniversalRoundTrip(p)
    ensures var r1 := RunOnce(p, fc, ec, s, source, tokenise, smtpError, None);
            var r2 := RunOnce(p, fc, ec, r1.store, source, tokenise, smtpError2, writeError2);
            Reported(r1) && r1.trace[0].events[0].timeGenerated % Platform.TicksPerSecond != 0 ==>
              r2.trace != [] && r2.trace[0].events != [] && r2.trace[0].events[0] == r1.trace[0].events[0]
  {
    WatermarkAfterReport(p, fc, ec, s, source, tokenise, smtpError);
    var r1 := RunOnce(p, fc, ec, s, source, tokenise, smtpError, None);
    if Reported(r1) {
      var filtered := LogEventFilter.ReadEvents(source, fc, tokenise).value;
      AlreadyReportedFilter.TruncatedWatermark(p, filtered);
    }
  }

  /** A run whose report could not be sent, or whose record write failed before the old record
      was truncated, leaves the watermark alone, so the next run over the same events sends the
      same report: no event is lost to a failed delivery. */
  lemma FailedSendIsRetried(
    p: Platform.Primitives, fc: FilterConfiguration.FilterConfig, ec: EmailConfiguration.EmailConfig,
    s: EventIdentificationStore.Store, source: seq<LogEvent>,
    tokenise: string -> Result<seq<FX.Token>, string>,
    smtpError: Option<string>, writeError: Option<WriteFailure>, smtpError2: Option<string>, writeError2: Option<WriteFailure>)
    ensures var r1 := RunOnce(p, fc, ec, s, source, tokenise, smtpError, writeError);
            var r2 := RunOnce(p, fc, ec, r1.store, source, tokenise, smtpError2, writeError2);
            r1.trace != [] && r1.outcome.Failure? && (writeError.None? || !writeError.value.truncated) ==>
              r2.trace != [] && r2.trace[0] == r1.trace[0]
  {
    var r1 := RunOnce(p, fc, ec, s, source, tokenise, smtpError, writeError);
    if r1.trace != [] && r1.outcome.Failure? && (writeError.None? || !writeError.value.truncated) {
      var ready := EventIdentificationStore.Open(s);
      var events := GetLogEvents(p, fc, ready, source, tokenise).value;
      assert !Saves(r1.trace) || writeError.Some?;
      assert r1.store == ready;
      assert GetLogEvents(p, fc, EventIdentificationStore.Open(r1.store), source, tokenise) == Success(events);
    }
  }

  /** A record write that fails after `FileMode.Create` truncated the record leaves it empty, and
      from then on every run of that configuration fails on reading it: nothing is sent, nothing
      is saved, and the store stays as it is until the records are cleared. */
  lemma TruncatedRecordStopsLaterRuns(
    p: Platform.Primitives, fc: FilterConfiguration.FilterConfig, ec: EmailConfiguration.EmailConfig,
    s: EventIdentificationStore.Store, source: seq<LogEvent>,
    tokenise: string -> Result<seq<FX.Token>, string>,
    smtpError: Option<string>, message: string, smtpError2: Option<string>, writeError2: Option<WriteFailure>)
    ensures var r1 := RunOnce(p, fc, ec, s, source, tokenise, smtpError, Some(WriteFailure(message, true)));
            var r2 := RunOnce(p, fc, ec, r1.store, source, tokenise, smtpError2, writeError2);
            Saves(r1.trace) ==>
              && r1.outcome == Failure(message)
              && r2.trace == []
              && r2.outcome == Failure(EventIdentificationStore.MissingLine)
              && r2.store == r1.store
  {
    var r1 := RunOnce(p, fc, ec, s, source, tokenise, smtpError, Some(WriteFailure(message, true)));
    if Saves(r1.trace) {
      var ready := EventIdentificationStore.Open(s);
      var key := EventIdentificationStore.RecordName(p, fc);
      EventIdentificationStore.InterruptedSaveBreaksGet(p, ready, key);
      assert EventIdentificationStore.Open(r1.store) == r1.store;
    }
  }
}
