/** `EventIdentificationStore`: one record per filter configuration, kept in the `Radon`
    directory of the user's isolated storage and named by the configuration hash. A record is
    two lines: the identified event's UTC timestamp in the `"u"` format, then its hash. */
module EventIdentificationStore {
  import opened Wrappers
  import opened Events
  import Numbers
  import Platform
  import HashBuilder
  import FilterConfiguration

  /** The isolated storage as far as the store uses it: whether the `Radon` directory exists,
      and the lines of each file in it by file name. */
  datatype Store = Store(radonDir: bool, files: map<string, seq<string>>)

  /** Files exist only inside the directory. */
  predicate WellFormed(s: Store) {
    !s.radonDir ==> s.files == map[]
  }

  /** `GetRadonFileNames`: the files of the `Radon` directory, none when it is absent. */
  function RadonFileNames(s: Store): (names: set<string>)
    ensures !s.radonDir ==> names == {}
    ensures WellFormed(s) ==> names == s.files.Keys
  {
    if s.radonDir then s.files.Keys else {}
  }

  /** `CreateRadonDirectoryIfNotExists`, run by the store's constructor. */
  function Open(s: Store): (r: Store)
    ensures r.radonDir && WellFormed(r)
    ensures s.radonDir ==> r == s
    ensures RadonFileNames(r) == RadonFileNames(s)
  {
    if s.radonDir then s else Store(true, map[])
  }

  /** The name of the record for a configuration: its hash, 64 upper-case hex digits with no
      path separator, so a plain file name inside the directory. */
  function RecordName(p: Platform.Primitives, config: FilterConfiguration.FilterConfig): (r: string)
    ensures |r| == 64 && Numbers.AllUpperHex(r)
    ensures '/' !in r && '\\' !in r
  {
    HashBuilder.BuildFilterConfigHash(p, config)
  }

  const MissingDirectory := "Could not find a part of the path"
  const MissingLine := "String reference not set to an instance of a String."
  const InvalidTimestamp := "String was not recognized as a valid DateTime."

  /** `GetAlreadyReportedEventIdentification`: no identification when no record is named `key`,
      otherwise the record's first line parsed as a UTC timestamp and its second line as the
      hash. A record too short or with an unparsable first line is an error. */
  function Get(p: Platform.Primitives, s: Store, key: string): (r: Result<Option<EventIdentification>, string>)
    ensures key !in RadonFileNames(s) ==> r == Success(None)
    ensures key in RadonFileNames(s) ==> key in s.files
    ensures key in RadonFileNames(s) && |s.files[key]| < 2 ==> r == Failure(MissingLine)
    ensures key in RadonFileNames(s) && |s.files[key]| >= 2 ==>
              match p.parseDateTime(s.files[key][0])
              case None => r == Failure(InvalidTimestamp)
              case Some(t) => r == Success(Some(EventIdentification(s.files[key][1], t)))
    ensures r.Success? && r.value.Some? ==>
              && key in RadonFileNames(s) && key in s.files && |s.files[key]| >= 2
              && p.parseDateTime(s.files[key][0]) == Some(r.value.value.timeStampUtc)
              && r.value.value.hash == s.files[key][1]
  {
    if key !in RadonFileNames(s) || key !in s.files then Success(None)
    else
      var lines := s.files[key];
      if |lines| < 2 then Failure(MissingLine)
      else match p.parseDateTime(lines[0])
        case None => Failure(InvalidTimestamp)
        case Some(t) => Success(Some(EventIdentification(lines[1], t)))
  }

  /** The two lines a record holds for an event: a timestamp that reads back as the event's time
      to the second, then the event's hash. */
  function Record(p: Platform.Primitives, e: LogEvent): (lines: seq<string>)
    ensures |lines| == 2
    ensures Platform.UniversalRoundTrip(p) ==>
              p.parseDateTime(lines[0]) == Some(Platform.WholeSeconds(e.timeGenerated))
    ensures lines[1] == HashBuilder.EventHash(p, e)
  {
    var id := HashBuilder.BuildEventIdentification(p, e);
    [p.formatUniversal(id.timeStampUtc), id.hash]
  }

  /** `SaveAlreadyReportedEventIdentification`: creates or truncates the record named `key` and
      writes the event's identification into it; without the directory the file cannot be
      created. No other record changes. */
  function Save(p: Platform.Primitives, s: Store, key: string, e: LogEvent): (r: Result<Store, string>)
    ensures r.Success? <==> s.radonDir
    ensures r.Success? ==> r.value.radonDir && key in r.value.files && r.value.files[key] == Record(p, e)
    ensures r.Success? ==> forall k :: k != key ==> (k in r.value.files <==> k in s.files)
    ensures r.Success? ==> forall k :: k != key && k in s.files ==> r.value.files[k] == s.files[k]
    ensures WellFormed(s) && r.Success? ==> WellFormed(r.value)
  {
    if !s.radonDir then Failure(MissingDirectory)
    else Success(s.(files := s.files[key := Record(p, e)]))
  }

  /** A `SaveAlreadyReportedEventIdentification` that fails after `FileMode.Create` has truncated
      the record and before any line reached it: the record is left empty. Without the directory
      the file is never created. No other record changes. */
  function SaveInterrupted(s: Store, key: string): (r: Store)
    ensures !s.radonDir ==> r == s
    ensures s.radonDir ==> r.radonDir && key in r.files && r.files[key] == []
    ensures forall k :: k != key ==> (k in r.files <==> k in s.files)
    ensures forall k :: k != key && k in s.files ==> r.files[k] == s.files[k]
  {
    if !s.radonDir then s else s.(files := s.files[key := []])
  }

  /** An interrupted save leaves a record that can no longer be read: the next read of that
      configuration fails on the missing timestamp line. */
  lemma InterruptedSaveBreaksGet(p: Platform.Primitives, s: Store, key: string)
    requires s.radonDir
    ensures Get(p, SaveInterrupted(s, key), key) == Failure(MissingLine)
  {
  }

  /** `ClearStoreFiles`: deletes every record and keeps the directory. */
  function ClearStoreFiles(s: Store): (r: Store)
    ensures r.radonDir == s.radonDir && WellFormed(r)
    ensures RadonFileNames(r) == {}
  {
    s.(files := map[])
  }

  /** Save then get under the same configuration gives back the event's hash and its timestamp
      cut to whole seconds by the `"u"` format. */
  lemma SaveThenGet(p: Platform.Primitives, s: Store, key: string, e: LogEvent)
    requires Platform.UniversalRoundTrip(p)
    requires s.radonDir
    ensures Get(p, Save(p, s, key, e).value, key) ==
            Success(Some(EventIdentification(HashBuilder.EventHash(p, e), Platform.WholeSeconds(e.timeGenerated))))
  {
    var t := e.timeGenerated;
    assert p.parseDateTime(p.formatUniversal(t)) == Some(Platform.WholeSeconds(t));
  }

  /** A second save under the same key replaces the first. */
  lemma SaveOverwrites(p: Platform.Primitives, s: Store, key: string, e1: LogEvent, e2: LogEvent)
    requires s.radonDir
    ensures Save(p, Save(p, s, key, e1).value, key, e2) == Save(p, s, key, e2)
  {
    assert s.files[key := Record(p, e1)][key := Record(p, e2)] == s.files[key := Record(p, e2)];
  }

  /** Saving under one configuration leaves what every other configuration reads unchanged. */
  lemma SaveKeepsOtherRecords(p: Platform.Primitives, s: Store, key: string, other: string, e: LogEvent)
    requires s.radonDir && other != key
    ensures Get(p, Save(p, s, key, e).value, other) == Get(p, s, other)
  {
  }

  /** A configuration whose hash has not been saved under reads no identification, even after
      another configuration saved in a freshly opened store. */
  lemma FreshConfigurationReadsNothing(
    p: Platform.Primitives, s: Store, a: FilterConfiguration.FilterConfig, b: FilterConfiguration.FilterConfig, e: LogEvent)
    requires RecordName(p, a) != RecordName(p, b)
    requires RecordName(p, b) !in RadonFileNames(s)
    ensures Get(p, Save(p, Open(s), RecordName(p, a), e).value, RecordName(p, b)) == Success(None)
  {
  }

  /** After clearing, no configuration reads an identification. */
  lemma ClearedStoreReadsNothing(p: Platform.Primitives, s: Store, key: string)
    ensures Get(p, ClearStoreFiles(s), key) == Success(None)
  {
  }
}
