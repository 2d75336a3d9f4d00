/** `FilterConfiguration`: which events a report covers, normalised once by the constructor. */
module FilterConfiguration {
  import opened Wrappers
  import opened Numbers
  import Text
  import Parser

  /** Where events come from. */
  datatype EventSource = EventLog | External

  /** A filter configuration. `timeLimit` is a `TimeSpan` in ticks. */
  datatype FilterConfig = FilterConfig(
    filterString: string,
    timeLimit: int,
    maxMessages: Int32,
    useMaxMessages: bool,
    remoteMachine: string,
    eventLogName: string,
    eventSource: EventSource,
    externalEventsXml: Option<string>)

  /** What every constructed configuration satisfies: the cap is in force exactly when it is positive,
      and the machine and log names carry no surrounding white space. */
  predicate Normalised(c: FilterConfig) {
    && (c.useMaxMessages <==> c.maxMessages > 0)
    && Text.IsTrimmed(c.remoteMachine)
    && Text.IsTrimmed(c.eventLogName)
  }

  /** The constructor. The filter string is kept verbatim (only null becomes ""),
      `maxMessages` is kept even when it is not positive, the machine and log names are
      trimmed, and the remaining fields are stored as given. */
  function Create(
    filterString: Option<string>,
    timeLimit: int,
    maxMessages: Int32,
    remoteMachine: Option<string>,
    eventLogName: Option<string>,
    eventSource: EventSource,
    externalEventsXml: Option<string>): (c: FilterConfig)
    ensures Normalised(c)
    ensures c.filterString == (if filterString.Some? then filterString.value else "")
    ensures c.maxMessages == maxMessages
    ensures c.useMaxMessages <==> maxMessages > 0
    ensures Parser.TrimmedFrom(remoteMachine, c.remoteMachine) && Parser.TrimmedFrom(eventLogName, c.eventLogName)
    ensures c.timeLimit == timeLimit && c.eventSource == eventSource && c.externalEventsXml == externalEventsXml
  {
    var r := Parser.TrimLineOrReturnStringEmptyIfNull(remoteMachine);
    var n := Parser.TrimLineOrReturnStringEmptyIfNull(eventLogName);
    FilterConfig(
      filterString.GetOr(""),
      timeLimit,
      maxMessages,
      maxMessages > 0,
      r,
      n,
      eventSource,
      externalEventsXml)
  }
}
