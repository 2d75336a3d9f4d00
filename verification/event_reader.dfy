/** The pure parts of `EventReader`: the walk from the newest log entry back to the edge of the
    time window, the entry-to-event mapping, and the error level of an entry type. The entries
    are given as a sequence in log order (oldest first); the OS event log, its retry loop and the
    clock are not part of this model. */
module EventReader {
  import opened Wrappers
  import opened Numbers
  import opened Events

  /** An `EventLogEntry`, with the fields the reader copies. */
  datatype EventLogEntry = EventLogEntry(
    entryType: EntryType,
    timeGenerated: nat,
    source: string,
    message: string,
    category: string,
    categoryNumber: Int16,
    instanceId: Int64,
    eventId: Int32,
    index: Int32)

  /** `GetErrorLevel`: a severity rank, from 0 for information to 4 for a failure audit.
      Values without a name rank as information. */
  function GetErrorLevel(t: EntryType): (r: Int32)
    ensures 0 <= r <= 4
    ensures r == 0 <==> t == Information || t.Undefined?
  {
    match t
    case FailureAudit => 4
    case SuccessAudit => 3
    case Error => 2
    case Warning => 1
    case Information => 0
    case Undefined(_) => 0
  }

  /** The five named entry types have five different levels, ordered by severity. */
  lemma ErrorLevelRanksNamedTypes(a: EntryType, b: EntryType)
    ensures !a.Undefined? && !b.Undefined? && a != b ==> GetErrorLevel(a) != GetErrorLevel(b)
    ensures GetErrorLevel(Information) < GetErrorLevel(Warning) < GetErrorLevel(Error)
            < GetErrorLevel(SuccessAudit) < GetErrorLevel(FailureAudit)
  {
  }

  /** `DateTime.MaxValue.Ticks`: the last representable instant. */
  const MaxTicks := 3155378975999999999

  /** A tick count `DateTime` can hold. */
  predicate Representable(ticks: int) {
    0 <= ticks <= MaxTicks
  }

  /** The message of the `ArgumentOutOfRangeException` that `DateTime - TimeSpan` throws when the
      difference leaves the `DateTime` range. It does not speak of "out of bounds", so the retry
      loop of `GetLogEvents` rethrows it. */
  const UnrepresentableDate := "The added or subtracted value results in an un-representable DateTime."

  /** An entry lies in the window when it is newer than `now - timeLimit`. */
  predicate InWindow(entry: EventLogEntry, now: int, timeLimit: int) {
    entry.timeGenerated > now - timeLimit
  }

  /** `GetEventLogEntries`: from the last (newest) entry backwards, collect entries while they
      lie in the window; stop at the first one that does not. The window's edge `now - timeLimit`
      is computed for each entry visited, and fails when it is not a representable `DateTime`;
      an empty log never computes it. */
  method GetEventLogEntries(entries: seq<EventLogEntry>, now: int, timeLimit: int)
    returns (r: Result<seq<EventLogEntry>, string>)
    ensures r.Failure? <==> entries != [] && !Representable(now - timeLimit)
    ensures r.Failure? ==> r.error == UnrepresentableDate
    ensures r.Success? ==> |r.value| <= |entries|
    ensures r.Success? ==> forall k :: 0 <= k < |r.value| ==> r.value[k] == entries[|entries| - 1 - k]
    ensures r.Success? ==> forall k :: 0 <= k < |r.value| ==> InWindow(r.value[k], now, timeLimit)
    ensures r.Success? && |r.value| < |entries| ==> !InWindow(entries[|entries| - 1 - |r.value|], now, timeLimit)
  {
    var result := [];
    var i := |entries| - 1;
    while i >= 0
      invariant -1 <= i < |entries|
      invariant |result| == |entries| - 1 - i
      invariant result != [] ==> Representable(now - timeLimit)
      invariant forall k :: 0 <= k < |result| ==> result[k] == entries[|entries| - 1 - k]
      invariant forall k :: 0 <= k < |result| ==> InWindow(result[k], now, timeLimit)
      decreases i
    {
      if !Representable(now - timeLimit) {
        return Failure(UnrepresentableDate);
      }
      if InWindow(entries[i], now, timeLimit) {
        result := result + [entries[i]];
      } else {
        return Success(result);
      }
      i := i - 1;
    }
    return Success(result);
  }

  /** Log order: timestamps never decrease from the oldest entry to the newest. */
  predicate OldestFirst(entries: seq<EventLogEntry>) {
    forall i, j :: 0 <= i < j < |entries| ==> entries[i].timeGenerated <= entries[j].timeGenerated
  }

  /** On a log in time order, the walk misses no entry of the window. */
  lemma WindowIsComplete(entries: seq<EventLogEntry>, now: int, timeLimit: int, result: seq<EventLogEntry>)
    requires OldestFirst(entries)
    requires |result| <= |entries|
    requires forall k :: 0 <= k < |result| ==> result[k] == entries[|entries| - 1 - k]
    requires |result| < |entries| ==> !InWindow(entries[|entries| - 1 - |result|], now, timeLimit)
    ensures forall e :: e in entries && InWindow(e, now, timeLimit) ==> e in result
  {
    forall e | e in entries && InWindow(e, now, timeLimit) ensures e in result {
      var j :| 0 <= j < |entries| && entries[j] == e;
      assert result[|entries| - 1 - j] == e;
    }
  }

  /** `GetLogEvent`: the entry's fields, `EventID` narrowed to 16 bits and the error level
      derived from the entry type. */
  function GetLogEvent(entry: EventLogEntry): (e: LogEvent)
    ensures e.timeGenerated == entry.timeGenerated && e.entryType == entry.entryType
    ensures e.source == entry.source && e.message == entry.message && e.category == entry.category
    ensures e.categoryNumber == entry.categoryNumber && e.instanceId == entry.instanceId && e.index == entry.index
    ensures (e.eventId - entry.eventId) % 0x1_0000 == 0
    ensures -0x8000 <= entry.eventId < 0x8000 ==> e.eventId == entry.eventId
    ensures e.errorLevel == GetErrorLevel(entry.entryType)
  {
    LogEvent(
      categoryNumber := entry.categoryNumber,
      category := entry.category,
      message := entry.message,
      source := entry.source,
      timeGenerated := entry.timeGenerated,
      entryType := entry.entryType,
      instanceId := entry.instanceId,
      index := entry.index,
      eventId := ToInt16(entry.eventId),
      errorLevel := GetErrorLevel(entry.entryType))
  }

  /** The `short` cast identifies event IDs that agree in their low 16 bits, and only those. */
  lemma EventIdNarrowing(a: Int32, b: Int32)
    ensures ToInt16(a) == ToInt16(b) <==> (a - b) % 0x1_0000 == 0
  {
    var ra: int, rb: int := ToInt16(a), ToInt16(b);
    assert (a - b) - (ra - rb) == (a - ra) - (b - rb);
    if (a - b) % 0x1_0000 == 0 {
      assert (ra - rb) % 0x1_0000 == 0;
    }
  }

  /** `ReadEvents`: the entries of the window, newest first, mapped to events; the first entry
      that falls outside the window ends the walk. */
  method ReadEvents(entries: seq<EventLogEntry>, now: int, timeLimit: int) returns (r: Result<seq<LogEvent>, string>)
    ensures r.Failure? <==> entries != [] && !Representable(now - timeLimit)
    ensures r.Failure? ==> r.error == UnrepresentableDate
    ensures r.Success? ==> |r.value| <= |entries|
    ensures r.Success? ==> forall k :: 0 <= k < |r.value| ==> r.value[k] == GetLogEvent(entries[|entries| - 1 - k])
    ensures r.Success? ==> forall k :: 0 <= k < |r.value| ==> r.value[k].timeGenerated > now - timeLimit
    ensures r.Success? && |r.value| < |entries| ==> !InWindow(entries[|entries| - 1 - |r.value|], now, timeLimit)
    ensures r.Success? && OldestFirst(entries) ==> NewestFirst(r.value)
  {
    var window := GetEventLogEntries(entries, now, timeLimit);
    if window.Failure? {
      return Failure(window.error);
    }
    var w := window.value;
    r := Success(seq(|w|, k requires 0 <= k < |w| => GetLogEvent(w[k])));
  }
}
