/** `RadonProgram.ExecuteRadon`: one run of the report protocol against an executor. The
    executor's calls are recorded as a trace; whether sending or saving fails is a parameter. */
module RadonProgram {
  import opened Wrappers
  import opened Events

  /** A call the program makes on its executor. */
  datatype ExecutorAction = SendReport(events: seq<LogEvent>) | SaveIdentification(event: LogEvent)

  /** `RadonResult`. */
  datatype RadonResult = RadonResult(
    userResultMessage: string,
    success: bool,
    actionSkipped: bool,
    unreportedEventsCount: nat)

  /** The calls made and how the run ended: a result, or the error that escaped it. */
  datatype Run = Run(trace: seq<ExecutorAction>, outcome: Result<RadonResult, string>)

  const NoEventsMessage := "No events. No mail has been sent from FRENDS Radon."
  const MailSentPrefix := "Mail sent to "

  /** A save happens only right after a send of the same events, and saves their first one. */
  predicate SaveFollowsSend(trace: seq<ExecutorAction>) {
    forall i :: 0 <= i < |trace| && trace[i].SaveIdentification? ==>
      && i > 0 && trace[i - 1].SendReport?
      && trace[i - 1].events != [] && trace[i].event == trace[i - 1].events[0]
  }

  /** `ExecuteRadon`, given the events the executor returns, the error `SendReport` raises if
      any, the error saving raises if any, and the recipients as shown to the user. */
  function ExecuteRadon(
    events: seq<LogEvent>, sendError: Option<string>, saveError: Option<string>,
    recipientsAsString: string): (run: Run)
    ensures SaveFollowsSend(run.trace)
    ensures |run.trace| <= 2
    ensures events == [] ==> run.trace == [] && run.outcome == Success(RadonResult(NoEventsMessage, true, true, 0))
    ensures events != [] ==> |run.trace| >= 1 && run.trace[0] == SendReport(events)
    ensures (exists i :: 0 <= i < |run.trace| && run.trace[i].SaveIdentification?) <==> events != [] && sendError.None?
    ensures run.outcome.Failure? <==> events != [] && (sendError.Some? || saveError.Some?)
    ensures events != [] && sendError.Some? ==> run.outcome == Failure(sendError.value)
    ensures run.outcome.Success? ==>
              && run.outcome.value.success
              && run.outcome.value.unreportedEventsCount == |events|
              && (run.outcome.value.actionSkipped <==> events == [])
    ensures run.outcome.Success? && events != [] ==>
              run.outcome.value.userResultMessage == MailSentPrefix + recipientsAsString
  {
    if events == [] then
      Run([], Success(RadonResult(NoEventsMessage, true, true, |events|)))
    else if sendError.Some? then
      Run([SendReport(events)], Failure(sendError.value))
    else
      var trace := [SendReport(events), SaveIdentification(events[0])];
      assert trace[1].SaveIdentification?;
      if saveError.Some? then Run(trace, Failure(saveError.value))
      else Run(trace, Success(RadonResult(MailSentPrefix + recipientsAsString, true, false, |events|)))
  }
}
