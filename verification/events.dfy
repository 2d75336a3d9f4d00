/** The event record `LogEvent`, the entry types of the Windows event log, and
    `EventIdentification`, the (hash, UTC timestamp) pair that marks the last reported event. */
module Events {
  import opened Numbers

  /** The numbers behind the five named `EventLogEntryType` members: Error 1, Warning 2,
      Information 4, SuccessAudit 8, FailureAudit 16. */
  predicate IsNamedCode(code: Int32) {
    code == 1 || code == 2 || code == 4 || code == 8 || code == 16
  }

  /** A value of the enum that has no member name. */
  type UnnamedCode = code: Int32 | !IsNamedCode(code) witness 0

  /** `EventLogEntryType`. `Undefined(code)` is any value outside the five named members,
      which an event log entry can carry; the named values are always their members. */
  datatype EntryType =
    | Error
    | Warning
    | Information
    | SuccessAudit
    | FailureAudit
    | Undefined(code: UnnamedCode)

  /** `Enum.ToString()`: the member name, or the number for a value without a name. A name
      starts with a letter and a number with a digit or a sign, and neither holds a line break. */
  function EntryTypeName(t: EntryType): (r: string)
    ensures r != "" && '\n' !in r
    ensures t.Undefined? <==> IsDigit(r[0]) || r[0] == '-'
  {
    match t
    case Error => "Error"
    case Warning => "Warning"
    case Information => "Information"
    case SuccessAudit => "SuccessAudit"
    case FailureAudit => "FailureAudit"
    case Undefined(code) => IntToString(code)
  }

  /** Distinct entry types have distinct names: named members start with a letter,
      numbers with a digit or a sign. */
  lemma EntryTypeNameInjective(a: EntryType, b: EntryType)
    requires EntryTypeName(a) == EntryTypeName(b)
    ensures a == b
  {
    if a.Undefined? && b.Undefined? {
      IntToStringInjective(a.code, b.code);
    }
  }

  /** A log event. Timestamps are UTC ticks; the string fields are never null
      (a null string serialises as the empty one). */
  datatype LogEvent = LogEvent(
    categoryNumber: Int16,
    category: string,
    message: string,
    source: string,
    timeGenerated: nat,
    entryType: EntryType,
    instanceId: Int64,
    index: Int32,
    eventId: Int16,
    errorLevel: Int32)

  /** The watermark: which event was reported last, by content hash and UTC timestamp. */
  datatype EventIdentification = EventIdentification(hash: string, timeStampUtc: nat)

  /** Timestamps never increase along the sequence: newest first. */
  predicate NewestFirst(events: seq<LogEvent>) {
    forall i, j :: 0 <= i < j < |events| ==> events[j].timeGenerated <= events[i].timeGenerated
  }

  /** Timestamps strictly decrease along the sequence. */
  predicate StrictlyNewestFirst(events: seq<LogEvent>) {
    forall i, j :: 0 <= i < j < |events| ==> events[j].timeGenerated < events[i].timeGenerated
  }
}
