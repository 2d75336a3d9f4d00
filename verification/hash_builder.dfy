/** `HashBuilder`: the canonical line-joined serialisations of an event and of a filter
    configuration, and the identities derived from them by hashing. */
module HashBuilder {
  import opened Numbers
  import opened Events
  import Text
  import Platform
  import FilterConfiguration
  import Wrappers

  /** The nine serialised event fields, in this order: Category, CategoryNumber, EntryType,
      ErrorLevel, EventID, InstanceID, Message, Source, TimeGenerated. `Index` is not among them. */
  function EventFields(p: Platform.Primitives, e: LogEvent): (r: seq<string>)
    ensures |r| == 9
  {
    [ e.category,
      IntToString(e.categoryNumber),
      EntryTypeName(e.entryType),
      IntToString(e.errorLevel),
      IntToString(e.eventId),
      IntToString(e.instanceId),
      e.message,
      e.source,
      p.formatDateTime(e.timeGenerated) ]
  }

  /** `GetEventBytes` before UTF-8 encoding: the fields joined with line feeds. */
  function EventSerialisation(p: Platform.Primitives, e: LogEvent): (r: string)
    ensures (forall i :: 0 <= i < 9 ==> '\n' !in EventFields(p, e)[i]) ==> Text.Split(r, '\n') == EventFields(p, e)
  {
    Text.JoinSplits(EventFields(p, e), '\n');
    Text.Join("\n", EventFields(p, e))
  }

  /** `BuildEventIdentification`: the digest of the serialisation, and the event's UTC timestamp. */
  function BuildEventIdentification(p: Platform.Primitives, e: LogEvent): (r: EventIdentification)
    ensures r.timeStampUtc == e.timeGenerated
  {
    EventIdentification(p.eventDigest(EventSerialisation(p, e)), e.timeGenerated)
  }

  /** The event's hash. It depends on the nine serialised fields alone: any event whose fields
      serialise to the same texts digests to the same hash, whatever its `Index`. */
  function EventHash(p: Platform.Primitives, e: LogEvent): (r: string)
    ensures forall e2: LogEvent :: EventFields(p, e2) == EventFields(p, e) ==>
              p.eventDigest(EventSerialisation(p, e2)) == r
  {
    BuildEventIdentification(p, e).hash
  }

  /** The identification does not depend on `Index`, which the log reassigns. */
  lemma IdentificationIgnoresIndex(p: Platform.Primitives, e: LogEvent, index: Int32)
    ensures BuildEventIdentification(p, e.(index := index)) == BuildEventIdentification(p, e)
  {
  }

  /** Whether two events agree on each serialised field, in the order of `EventFields`.
      Timestamps agree when they fall in the same second, the resolution of the date format. */
  function FieldsAgree(e1: LogEvent, e2: LogEvent): (r: seq<bool>)
    ensures |r| == 9
  {
    [ e1.category == e2.category,
      e1.categoryNumber == e2.categoryNumber,
      e1.entryType == e2.entryType,
      e1.errorLevel == e2.errorLevel,
      e1.eventId == e2.eventId,
      e1.instanceId == e2.instanceId,
      e1.message == e2.message,
      e1.source == e2.source,
      e1.timeGenerated / Platform.TicksPerSecond == e2.timeGenerated / Platform.TicksPerSecond ]
  }

  /** A field agrees exactly when its serialised text agrees. */
  lemma FieldTextAgrees(p: Platform.Primitives, e1: LogEvent, e2: LogEvent, j: nat)
    requires Platform.SecondResolutionDates(p)
    requires j < 9
    ensures FieldsAgree(e1, e2)[j] <==> EventFields(p, e1)[j] == EventFields(p, e2)[j]
  {
    var f1, f2 := EventFields(p, e1), EventFields(p, e2);
    if f1[j] == f2[j] {
      match j
      case 1 => IntToStringInjective(e1.categoryNumber, e2.categoryNumber);
      case 2 => EntryTypeNameInjective(e1.entryType, e2.entryType);
      case 3 => IntToStringInjective(e1.errorLevel, e2.errorLevel);
      case 4 => IntToStringInjective(e1.eventId, e2.eventId);
      case 5 => IntToStringInjective(e1.instanceId, e2.instanceId);
      case _ =>
    }
  }

  /** Changing exactly one serialised field of an event changes its hash: the joined text differs
      in that field alone, and the digest is collision-free. */
  lemma ChangingOneFieldChangesHash(p: Platform.Primitives, e1: LogEvent, e2: LogEvent, i: nat)
    requires Platform.CollisionFree(p) && Platform.SecondResolutionDates(p)
    requires i < 9
    requires forall j :: 0 <= j < 9 && j != i ==> FieldsAgree(e1, e2)[j]
    requires !FieldsAgree(e1, e2)[i]
    ensures EventHash(p, e1) != EventHash(p, e2)
  {
    var f1, f2 := EventFields(p, e1), EventFields(p, e2);
    forall j | 0 <= j < 9 && j != i ensures f1[j] == f2[j] {
      FieldTextAgrees(p, e1, e2, j);
    }
    FieldTextAgrees(p, e1, e2, i);
    Text.JoinSensitive("\n", f1, f2, i);
  }

  /** The six serialised configuration fields, in this order: EventLogName, FilterString,
      MaxMessages, RemoteMachine, TimeLimit, UseMaxMessages. */
  function ConfigFields(p: Platform.Primitives, c: FilterConfiguration.FilterConfig): (r: seq<string>)
    ensures |r| == 6
  {
    [ c.eventLogName,
      c.filterString,
      IntToString(c.maxMessages),
      c.remoteMachine,
      p.formatTimeSpan(c.timeLimit),
      BoolToString(c.useMaxMessages) ]
  }

  /** `GetFilterConfigurationBytes` before UTF-8 encoding. */
  function ConfigSerialisation(p: Platform.Primitives, c: FilterConfiguration.FilterConfig): (r: string)
    ensures (forall i :: 0 <= i < 6 ==> '\n' !in ConfigFields(p, c)[i]) ==> Text.Split(r, '\n') == ConfigFields(p, c)
  {
    Text.JoinSplits(ConfigFields(p, c), '\n');
    Text.Join("\n", ConfigFields(p, c))
  }

  /** `BuildFilterConfigHash`: `BitConverter.ToString` of the SHA-256 digest with the dashes
      removed. It is 64 upper-case hexadecimal digits, so it holds neither `-` nor a path
      separator and can name a file. */
  function BuildFilterConfigHash(p: Platform.Primitives, c: FilterConfiguration.FilterConfig): (r: string)
    ensures |r| == 64
    ensures AllUpperHex(r)
    ensures '-' !in r && '/' !in r && '\\' !in r
  {
    var digest := p.configDigest(ConfigSerialisation(p, c));
    HexWithoutDashes(digest);
    Text.RemoveChar(BitConverterToString(digest), '-')
  }

  /** The event source and the external events payload are not part of the configuration's identity. */
  lemma ConfigHashIgnoresSource(
    p: Platform.Primitives, c: FilterConfiguration.FilterConfig,
    source: FilterConfiguration.EventSource, xml: Wrappers.Option<string>)
    ensures BuildFilterConfigHash(p, c.(eventSource := source, externalEventsXml := xml)) == BuildFilterConfigHash(p, c)
  {
  }

  /** Two configurations that differ in exactly one of the five user-set fields. */
  predicate DifferInOneSetting(c1: FilterConfiguration.FilterConfig, c2: FilterConfiguration.FilterConfig) {
    var sameFilter := c1.filterString == c2.filterString;
    var sameTime := c1.timeLimit == c2.timeLimit;
    var sameMax := c1.maxMessages == c2.maxMessages;
    var sameMachine := c1.remoteMachine == c2.remoteMachine;
    var sameLog := c1.eventLogName == c2.eventLogName;
    && FilterConfiguration.Normalised(c1) && FilterConfiguration.Normalised(c2)
    && ( || (!sameFilter && sameTime && sameMax && sameMachine && sameLog)
         || (sameFilter && !sameTime && sameMax && sameMachine && sameLog)
         || (sameFilter && sameTime && !sameMax && sameMachine && sameLog)
         || (sameFilter && sameTime && sameMax && !sameMachine && sameLog)
         || (sameFilter && sameTime && sameMax && sameMachine && !sameLog))
  }

  /** The configuration text determines `MaxMessages` once the two fields before it agree. */
  lemma SerialisationDeterminesMaxMessages(
    p: Platform.Primitives, c1: FilterConfiguration.FilterConfig, c2: FilterConfiguration.FilterConfig)
    requires c1.eventLogName == c2.eventLogName && c1.filterString == c2.filterString
    requires ConfigSerialisation(p, c1) == ConfigSerialisation(p, c2)
    ensures c1.maxMessages == c2.maxMessages
  {
    var f1, f2 := ConfigFields(p, c1), ConfigFields(p, c2);
    var head := f1[0] + "\n" + f1[1] + "\n";
    var t1, t2 := Text.Join("\n", f1[3..]), Text.Join("\n", f2[3..]);
    assert Text.Join("\n", f1[2..]) == f1[2] + "\n" + t1;
    assert Text.Join("\n", f2[2..]) == f2[2] + "\n" + t2;
    assert Text.Join("\n", f1[1..]) == f1[1] + "\n" + Text.Join("\n", f1[2..]);
    assert Text.Join("\n", f2[1..]) == f2[1] + "\n" + Text.Join("\n", f2[2..]);
    assert ConfigSerialisation(p, c1) == head + (f1[2] + "\n" + t1);
    assert ConfigSerialisation(p, c2) == head + (f2[2] + "\n" + t2);
    assert f1[2] + "\n" + t1 == (head + (f1[2] + "\n" + t1))[|head|..];
    assert f2[2] + "\n" + t2 == (head + (f2[2] + "\n" + t2))[|head|..];
    Text.FirstFieldDetermined(f1[2], f2[2], t1, t2, '\n');
    IntToStringInjective(c1.maxMessages, c2.maxMessages);
  }

  /** Changing any one of FilterString, TimeLimit, MaxMessages, RemoteMachine or EventLogName of a
      constructed configuration changes its serialisation, and with it the input of the digest. */
  lemma ConfigSerialisationSensitive(
    p: Platform.Primitives, c1: FilterConfiguration.FilterConfig, c2: FilterConfiguration.FilterConfig)
    requires Platform.TimeSpanFormatInjective(p)
    requires DifferInOneSetting(c1, c2)
    ensures ConfigSerialisation(p, c1) != ConfigSerialisation(p, c2)
  {
    var f1, f2 := ConfigFields(p, c1), ConfigFields(p, c2);
    if c1.maxMessages != c2.maxMessages {
      if ConfigSerialisation(p, c1) == ConfigSerialisation(p, c2) {
        SerialisationDeterminesMaxMessages(p, c1, c2);
      }
    } else {
      var i := if c1.eventLogName != c2.eventLogName then 0
               else if c1.filterString != c2.filterString then 1
               else if c1.remoteMachine != c2.remoteMachine then 3
               else 4;
      assert c1.useMaxMessages == c2.useMaxMessages;
      if i == 4 {
        assert p.formatTimeSpan(c1.timeLimit) != p.formatTimeSpan(c2.timeLimit);
      }
      Text.JoinSensitive("\n", f1, f2, i);
    }
  }
}
