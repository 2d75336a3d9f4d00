# Frends.Radon in Dafny

FRENDS Radon reads event-log entries, keeps those that match a filter expression, drops the ones
an earlier run has already reported, and mails a report of the rest. After a successful report it
remembers the newest reported event — its timestamp and a hash of its fields — in a small keyed
store, so that the next run starts where this one stopped.

This project models that pipeline as pure functions over sequences and strings, and proves what
each step promises:

- `EventReader` (`event_reader.dfy`): the newest-first time-window walk over the log entries, the
  error-level table, and the copy of an entry into a `LogEvent` with its 16-bit event id.
- `LogEventFilter` (`log_event_filter.dfy`): the empty-filter bypass, predicate filtering, the
  `MaxMessages` cap and the wrapped parse error.
- `FilterExpression` (`filter_expression.dfy`): the filter predicate as an expression over event
  fields (`and`, `or`, `not`/`!`, parentheses, comparisons, `Contains`/`StartsWith`/`EndsWith`),
  with a recursive-descent parser over tokens, one function per precedence level (`or`, `and`,
  unary), and the parse/print round trip.
- `AlreadyReportedFilter` (`already_reported_filter.dfy`): the `TakeWhile` walk against the stored
  watermark.
- `HashBuilder` (`hash_builder.dfy`): the nine-field event serialisation and the six-field
  configuration serialisation, with their hashes.
- `EventIdentificationStore` (`event_identification_store.dfy`): the per-configuration record
  store, with its two-line record.
- `FilterConfiguration`, `EmailConfiguration`, `Parser`: constructor normalisation, the
  recipient-list helpers, and the validation and credential choice of `GetReportSender`.
- `RadonProgram` (`radon_program.dfy`): the send-then-save protocol as a trace of executor calls.
- `RadonExecutor` (`radon_executor.dfy`): one run with its parts wired together, and what a second
  run over the same events does.

Supporting modules: `Wrappers` (`Option`, `Result`), `Text` (.NET `Trim`, `Split`, `Join`),
`Numbers` (integer widths, invariant-culture number text, the hex form of `BitConverter`),
`Events` (the `LogEvent` record and `EventLogEntryType`), and `Platform`.

`Platform` holds the primitives the system takes from .NET as fields of a record:
- SHA-256 with Base64 of the event bytes;
- SHA-256 of the configuration bytes;
- invariant-culture `DateTime` text;
- `TimeSpan.ToString()`;
- the `"u"` format and `DateTime.Parse`.

What is assumed about those primitives is a named predicate, and it appears as a `requires` only
of the lemmas that need it:
- `CollisionFree`: the event digest is injective.
- `SecondResolutionDates`: date text identifies a time to the second.
- `TimeSpanFormatInjective`.
- `UniversalRoundTrip`: parsing the `"u"` text gives the time cut to the whole second.

`Platform.AssumptionsAreConsistent` exhibits primitives that satisfy all four.

Timestamps are UTC ticks (10 000 000 per second) held as `nat`.

## Model

| member | source | states |
|---|---|---|
| AlreadyReportedFilter.TakeWhileNew | Frends.Radon/AlreadyReportedFilter.cs:27-51 | the result is a prefix of the events, every event in it is still new against the watermark, and the first event left out is not |
| AlreadyReportedFilter.ReadEvents | Frends.Radon/AlreadyReportedFilter.cs:17-54 | with no stored identification the events pass unchanged; otherwise the output is the longest prefix of events strictly newer than the watermark or of equal time with a different hash |
| AlreadyReportedFilter.CutAt | Frends.Radon/AlreadyReportedFilter.cs:27-53 | any cut point k where the first k events are new and event k is not determines the output length exactly |
| AlreadyReportedFilter.NeverResumes | Frends.Radon/AlreadyReportedFilter.cs:31-50 | once the event at index k is not new, the output has at most k events and is a prefix, so no event from k on is returned, whatever it is |
| AlreadyReportedFilter.SameTimeOtherHashPasses | Frends.Radon/AlreadyReportedFilter.cs:40-50 | on strictly newest-first events, a watermark at event i's time with a different hash yields exactly events 0..i |
| AlreadyReportedFilter.StillNewIsNotTheWatermark | Frends.Radon/AlreadyReportedFilter.cs:31-49 | an event passes the `TakeWhile` test exactly when it is not older than the watermark and its identification is not the watermark |
| AlreadyReportedFilter.StopsAtReportedEvent | Frends.Radon/AlreadyReportedFilter.cs:31-50 | on strictly newest-first events, the identification of event i as watermark yields exactly the i newer events |
| AlreadyReportedFilter.NewestReportedGivesNothing | Frends.Radon/AlreadyReportedFilter.cs:40-50 | when the watermark identifies the first event, nothing is let through |
| AlreadyReportedFilter.TruncatedWatermark | Frends.Radon/AlreadyReportedFilter.cs:31-50 | with the watermark a save-and-read gives back (hash, time cut to the second), the output is empty exactly when the first event's time is a whole second |
| LogEventFilter.Filter | Frends.Radon/LogEventFilter.cs:32 | filtering never lengthens a sequence |
| LogEventFilter.FilterMembers | Frends.Radon/LogEventFilter.cs:32 | an element is in the filtered sequence exactly when it is in the input and satisfies the predicate |
| LogEventFilter.FilterConcat | Frends.Radon/LogEventFilter.cs:32 | filtering a concatenation is concatenating the filtered parts, so order is kept |
| LogEventFilter.FilterAllAccepted | Frends.Radon/LogEventFilter.cs:32 | when every element satisfies the predicate the sequence is unchanged |
| LogEventFilter.Where | Frends.Radon/LogEventFilter.cs:32 | an event is in the result exactly when it is in the input and the expression holds for it |
| LogEventFilter.WhereConcat | Frends.Radon/LogEventFilter.cs:32 | `Where` distributes over concatenation, so matches keep their order |
| LogEventFilter.WhereAllMatch | Frends.Radon/LogEventFilter.cs:32 | when every event matches, `Where` returns the events unchanged |
| LogEventFilter.Take | Frends.Radon/LogEventFilter.cs:41-44 | the result is the prefix of length min(n, count), and empty for n ≤ 0 |
| LogEventFilter.ParseFailureMessage | Frends.Radon/LogEventFilter.cs:34-38 | the error message contains the filter string verbatim |
| LogEventFilter.ParseFilter | Frends.Radon/LogEventFilter.cs:32 | a lexing error is the parse error, and a successful parse comes from a non-empty token sequence |
| LogEventFilter.PrintedFilterParses | Frends.Radon/LogEventFilter.cs:32 | a filter string whose tokens print an expression parses to that expression |
| LogEventFilter.ReadEvents | Frends.Radon/LogEventFilter.cs:19-59 | fails exactly when the filter string is non-empty and does not parse, with a message that names the filter; otherwise returns only input events, at most MaxMessages of them under the cap, and all events unchanged for an empty filter with no cap |
| LogEventFilter.UncappedIsMatchingSubsequence | Frends.Radon/LogEventFilter.cs:32-48 | without the cap the output is exactly the order-preserving subsequence of matching events, and reading a concatenation concatenates the readings |
| LogEventFilter.CappedIsFirstMatches | Frends.Radon/LogEventFilter.cs:41-44 | with the cap the output is the first min(MaxMessages, matches) matching events |
| LogEventFilter.EmptyFilterCapped | Frends.Radon/LogEventFilter.cs:24-44 | an empty filter with the cap yields the first min(MaxMessages, count) events |
| FilterExpression.InequalityNegatesEquality | Frends.Radon.Tests/LogEventFilterTest.cs:171-184 | `<>` and `!=` hold exactly when `=` does not, on numbers and on strings |
| FilterExpression.ParseOr | Frends.Radon/LogEventFilter.cs:32 | a successful parse of an `or` chain consumes at least one token and stays within the input |
| FilterExpression.ParseOrTail | Frends.Radon/LogEventFilter.cs:32 | parsing the rest of an `or` chain stays within the input |
| FilterExpression.ParseAnd | Frends.Radon/LogEventFilter.cs:32 | a successful parse of an `and` chain consumes at least one token and stays within the input |
| FilterExpression.ParseAndTail | Frends.Radon/LogEventFilter.cs:32 | parsing the rest of an `and` chain stays within the input |
| FilterExpression.ParseUnary | Frends.Radon/LogEventFilter.cs:32 | a successful parse of a negation, parenthesis or comparison consumes at least one token |
| FilterExpression.NotBeforeComparisonFails | Frends.Radon/LogEventFilter.cs:32-38 | `not` written directly before a property comparison is a parse error naming the operator and the property's type, since negation binds tighter than comparison |
| FilterExpression.NotNegatesCallOrParenthesis | Frends.Radon.Tests/LogEventFilterTest.cs:226-240 | `not` before a method call, or before a parenthesised comparison, parses as its negation, which holds exactly when the comparison does not |
| FilterExpression.ParseNegatedParenthesis | Frends.Radon/LogEventFilter.cs:32 | `not ( c )` anywhere in a token sequence parses as the negation of c and ends after the closing parenthesis |
| FilterExpression.Parse | Frends.Radon/LogEventFilter.cs:32-34 | an empty token sequence is a parse error |
| FilterExpression.AndBindsTighterThanOr | Frends.Radon.Tests/LogEventFilterTest.cs:163-168 | `a and b or c` parses as `(a and b) or c` and holds exactly when both a and b hold or c holds |
| FilterExpression.ParenthesesOverridePrecedence | Frends.Radon.Tests/LogEventFilterTest.cs:187-200 | `a and (b or c)` parses as the conjunction of a with the disjunction |
| FilterExpression.BangAndNotAgree | Frends.Radon.Tests/LogEventFilterTest.cs:226-240 | `!` and `not` are accepted in the same places and give the same expression, which is a negation holding exactly when its operand does not |
| FilterExpression.Print | Frends.Radon/LogEventFilter.cs:32 | every expression prints as a non-empty token sequence that starts with a property comparison exactly when the expression is one |
| FilterExpression.ParsePrinted | Frends.Radon/LogEventFilter.cs:32 | the printed form of any expression, wherever it occurs in a token sequence, parses back to that expression and ends where the print ends |
| FilterExpression.ParsePrintedAnd | Frends.Radon/LogEventFilter.cs:32 | the same for a parenthesised conjunction |
| FilterExpression.ParsePrintedOr | Frends.Radon/LogEventFilter.cs:32 | the same for a parenthesised disjunction |
| FilterExpression.ParsePrintRoundTrip | Frends.Radon/LogEventFilter.cs:32 | parsing the printed form of any expression gives that expression back |
| FilterExpression.UnaryDependsOnSuffix | Frends.Radon/LogEventFilter.cs:32 | parsing from a position depends only on the tokens from that position on |
| FilterExpression.OrDependsOnSuffix | Frends.Radon/LogEventFilter.cs:32 | the same for `or` chains |
| FilterExpression.AndDependsOnSuffix | Frends.Radon/LogEventFilter.cs:32 | the same for `and` chains |
| HashBuilder.EventFields | Frends.Radon/HashBuilder.cs:41-52 | the event serialisation has exactly nine fields |
| HashBuilder.EventSerialisation | Frends.Radon/HashBuilder.cs:39-55 | when no field holds a line break, splitting the serialisation at line breaks gives the nine fields back |
| HashBuilder.EventHash | Frends.Radon/HashBuilder.cs:20 | the hash depends on the nine serialised fields alone: two events whose fields serialise to the same texts have the same hash |
| HashBuilder.BuildEventIdentification | Frends.Radon/HashBuilder.cs:16-23 | the identification's timestamp is the event's own time |
| HashBuilder.IdentificationIgnoresIndex | Frends.Radon/HashBuilder.cs:39-55 | changing an event's `Index` leaves its identification unchanged |
| HashBuilder.FieldTextAgrees | Frends.Radon/HashBuilder.cs:41-52 | two events agree on a field exactly when that field's text is the same (times compared to the second) |
| HashBuilder.ChangingOneFieldChangesHash | Frends.Radon/HashBuilder.cs:39-55 | for a collision-free digest, two events that differ in exactly one serialised field have different hashes |
| HashBuilder.BuildFilterConfigHash | Frends.Radon/HashBuilder.cs:10-14 | the configuration hash is 64 upper-case hex digits with no `-`, `/` or `\`, so it can name a file |
| HashBuilder.ConfigHashIgnoresSource | Frends.Radon/HashBuilder.cs:25-37 | `EventSource` and `ExternalEventsXml` do not affect the configuration hash |
| HashBuilder.ConfigFields | Frends.Radon/HashBuilder.cs:28-36 | the configuration serialisation has exactly six fields |
| HashBuilder.ConfigSerialisation | Frends.Radon/HashBuilder.cs:25-37 | when no field holds a line break, splitting the serialisation at line breaks gives the six fields back |
| HashBuilder.SerialisationDeterminesMaxMessages | Frends.Radon/HashBuilder.cs:28-36 | configurations with the same log name and filter string serialise alike only if their `MaxMessages` is equal |
| HashBuilder.ConfigSerialisationSensitive | Frends.Radon/HashBuilder.cs:28-36 | two normalised configurations that differ in exactly one of filter, time limit, maximum, machine or log name serialise differently |
| EventIdentificationStore.RadonFileNames | Frends.Radon/EventIdentificationStore.cs:89-97 | without the Radon directory there are no record names; with it, the names are the stored records |
| EventIdentificationStore.RecordName | Frends.Radon/EventIdentificationStore.cs:24 | a configuration's record is named by its hash: 64 upper-case hex digits with no path separator |
| EventIdentificationStore.Open | Frends.Radon/EventIdentificationStore.cs:99-105 | after opening, the directory exists, an existing store is unchanged, and the set of record names is the same as before |
| EventIdentificationStore.Get | Frends.Radon/EventIdentificationStore.cs:34-56 | no record under the key reads nothing; a record of fewer than two lines is the missing-line error; otherwise an unparsable first line is the date error and a parsable one gives that time with the second line as the hash |
| EventIdentificationStore.Record | Frends.Radon/EventIdentificationStore.cs:62-68 | the record is two lines; when the date format round-trips, the first reads back as the event's time to the second, and the second is the event's hash |
| EventIdentificationStore.Save | Frends.Radon/EventIdentificationStore.cs:58-70 | saving succeeds exactly when the directory exists, writes the record under the key and leaves every other record as it was |
| EventIdentificationStore.SaveInterrupted | Frends.Radon/EventIdentificationStore.cs:62 | a save that fails after the file was created leaves the record empty and every other record as it was; without the directory nothing changes |
| EventIdentificationStore.InterruptedSaveBreaksGet | Frends.Radon/EventIdentificationStore.cs:42-49 | the record an interrupted save leaves cannot be read: reading it is the missing-line error |
| EventIdentificationStore.ClearStoreFiles | Frends.Radon/EventIdentificationStore.cs:72-84 | clearing removes every record and keeps the directory as it was |
| EventIdentificationStore.SaveThenGet | Frends.Radon/EventIdentificationStore.cs:46-67 | reading after a save gives the event's hash and its time cut to the whole second |
| EventIdentificationStore.SaveOverwrites | Frends.Radon/EventIdentificationStore.cs:62 | a second save under the same key replaces the first |
| EventIdentificationStore.SaveKeepsOtherRecords | Frends.Radon/EventIdentificationStore.cs:62 | a save under one key does not change what any other key reads |
| EventIdentificationStore.FreshConfigurationReadsNothing | Frends.Radon/EventIdentificationStore.cs:24-39 | after a save for one configuration, a configuration with a different hash and no record still reads nothing |
| EventIdentificationStore.ClearedStoreReadsNothing | Frends.Radon/EventIdentificationStore.cs:72-84 | after clearing, every key reads nothing |
| FilterConfiguration.Create | Frends.Radon/FilterConfiguration.cs:48-64 | a null filter string becomes "" and any other is kept verbatim; `MaxMessages` is kept as given; `UseMaxMessages` holds exactly when it is positive; machine and log names are trimmed, with null as ""; the rest is stored unchanged |
| Parser.TrimLineOrReturnStringEmptyIfNull | Frends.Radon/Parser.cs:37-40 | null becomes ""; otherwise the result is the input with only white space cut from both ends, and a trimmed input is returned as is |
| Parser.TrimLineIdempotent | Frends.Radon/Parser.cs:37-40 | normalising twice is normalising once |
| Parser.TrimmedNonEmpty | Frends.Radon/Parser.cs:29 | the result is no longer than the pieces, each result is non-empty and trimmed, and free of `;` when the pieces were |
| Parser.TrimmedNonEmptyKeeps | Frends.Radon/Parser.cs:29 | every piece that is not blank appears, trimmed, in the result |
| Parser.TrimmedNonEmptyMembers | Frends.Radon/Parser.cs:29 | a string is in the result exactly when it is non-empty and the trim of some piece |
| Parser.TrimmedNonEmptyConcat | Frends.Radon/Parser.cs:29 | the result for a concatenation is the result for the first part followed by that for the second, so the pieces keep their order |
| Parser.ParseRecipientsToList | Frends.Radon/Parser.cs:27-30 | null and "" give no recipients; every recipient is non-empty, trimmed and free of `;`; a string is a recipient exactly when it is the non-empty trim of a `;`-separated piece of the input |
| Parser.EveryAddressIsKept | Frends.Radon/Parser.cs:29 | every non-blank `;`-separated piece of the input is among the recipients, trimmed |
| Parser.ParseIsTrimmedPieces | Frends.Radon/Parser.cs:27-30 | for every non-null input, "" included, the recipients are the trimmed non-empty pieces of its split at `;` |
| Parser.OneAddress | Frends.Radon/Parser.cs:29 | an input without `;` gives its trim as the only recipient, or none when it is all white space |
| Parser.AddressesInOrder | Frends.Radon/Parser.cs:29 | the recipients of `a;b`, where `a` holds no `;`, are those of `a` followed by those of `b`, so the input order is kept |
| Parser.JoinedRecipientsParse | Frends.Radon/Parser.cs:27-35 | a list of recipients joined with `;` parses back to the same list in the same order |
| Parser.NonBlankTrimmed | Frends.Radon/Parser.cs:34 | each result is non-empty and trimmed |
| Parser.NonBlankTrimmedKeeps | Frends.Radon/Parser.cs:34 | every non-null, non-blank entry appears, trimmed, in the result |
| Parser.NonBlankTrimmedMembers | Frends.Radon/Parser.cs:34 | a string is in the result exactly when it is the trim of a non-null entry that is not all white space |
| Parser.NonBlankTrimmedConcat | Frends.Radon/Parser.cs:34 | the result for a concatenation is the result for the first part followed by that for the second, so the entries keep their order |
| Parser.ParseRecipientsToString | Frends.Radon/Parser.cs:32-35 | a null list gives ""; otherwise the result is "" exactly when every entry is null or blank, and when no entry holds `;`, splitting a non-empty result at `;` gives the trimmed non-blank entries in order |
| Parser.PrintedEntries | Frends.Radon/Parser.cs:34 | the trimmed non-blank entries are none exactly when every entry is blank, their join is then non-empty, and it splits back at `;` when no entry holds one |
| Parser.StringOfRecipients | Frends.Radon/Parser.cs:32-35 | a list of clean addresses prints as the addresses joined with `;` |
| Parser.ListOfString | Frends.Radon/Parser.cs:27-35 | the string form of a list whose entries hold no `;` parses back to exactly its non-blank entries, trimmed |
| Parser.RecipientsRoundTrip | Frends.Radon/EmailConfiguration.cs:85-86 | the recipient list survives a round trip through its string form |
| EmailConfiguration.Recipients | Frends.Radon/EmailConfiguration.cs:85-86 | the stored list is the parsed input, and the stored string is that list joined with `;`, which parses back to it |
| EmailConfiguration.Create | Frends.Radon/EmailConfiguration.cs:65-91 | server, sender, sender name, subject and template are trimmed with null as ""; user name and password are kept verbatim; the recipients are the parsed list and `RecipientsAsString` is that list joined with `;`, which parses back to it; the rest is stored as given |
| EmailConfiguration.GetReportSender | Frends.Radon/EmailConfiguration.cs:93-130 | the four checks fail in order (password, sender, recipients, server) with the source's messages; success exactly when none fails; explicit credentials exactly when a user name is given without Windows credentials, and then both are non-empty |
| EmailConfiguration.BlankServerIsRejected | Frends.Radon/EmailConfiguration.cs:78-110 | a configuration built with an all-white-space server is rejected, and with the earlier checks passing the error is the server message |
| EmailConfiguration.SenderOfConstructedConfiguration | Frends.Radon/EmailConfiguration.cs:99-127 | the sender of a constructed configuration mails clean addresses that are exactly the parse of `RecipientsAsString`, through a non-empty trimmed server |
| RadonProgram.ExecuteRadon | Frends.Radon/RadonProgram.cs:14-37 | no events: no calls, skipped, success, the fixed message; otherwise a send of all events and, only if it succeeds, a save of the first; a failing call ends the run with its error; the count is the number of events |
| EventReader.GetErrorLevel | Frends.Radon/EventReader.cs:93-104 | the level is within 0..4 and is 0 exactly for Information and unnamed types |
| EventReader.ErrorLevelRanksNamedTypes | Frends.Radon/EventReader.cs:93-104 | named types get distinct levels, ordered Information < Warning < Error < SuccessAudit < FailureAudit |
| EventReader.GetEventLogEntries | Frends.Radon/EventReader.cs:56-74 | fails with the `DateTime` range error exactly when the log is non-empty and `now - timeLimit` is not a representable time; otherwise the result is the entries from the end, newest first, all inside the time window, stopping only at an entry outside it |
| EventReader.WindowIsComplete | Frends.Radon/EventReader.cs:61-72 | on an oldest-first log, every entry inside the window is returned |
| EventReader.GetLogEvent | Frends.Radon/EventReader.cs:76-91 | every field is copied, the event id is the entry's id wrapped to 16 bits, and the error level is `GetErrorLevel` of the entry type |
| EventReader.EventIdNarrowing | Frends.Radon/EventReader.cs:87 | two event ids give the same 16-bit id exactly when their difference is a multiple of 65536 |
| EventReader.ReadEvents | Frends.Radon/EventReader.cs:24-74 | fails exactly when the log is non-empty and the window edge is not a representable time, an error the retry loop rethrows; otherwise the events are the windowed entries from the end, mapped field by field, ending only at the first entry outside the window, and newest first when the log is oldest first |
| RadonExecutor.SendError | Frends.Radon/RadonExecutor.cs:46-54 | sending fails with the validation error when the sender cannot be built, and otherwise with the delivery error if any |
| RadonExecutor.GetLogEvents | Frends.Radon/RadonExecutor.cs:41-44 | a failed read of the watermark, and then a failed filter, is the run's error; otherwise the events are a prefix of the filtered events: all of them without a watermark, else the leading events that are still new, up to the first that is not |
| RadonExecutor.RunOnce | Frends.Radon/RadonExecutor.cs:41-67 | a save only follows a send of the same events; a reported run sends a non-empty report and a skipped run makes no calls; without a save, or when the write fails before the file is opened, the store is only opened; a write that fails after truncating leaves the record empty; a successful save holds the record of the first reported event |
| RadonExecutor.Watermark | Frends.Radon/EventIdentificationStore.cs:46-49 | the stored time is within one second below the event's time, and equal to it exactly for whole-second times |
| RadonExecutor.WatermarkAfterReport | Frends.Radon/RadonProgram.cs:21-22 | for every run that reports, the next run reads the same filtered events against the watermark of the first reported event |
| RadonExecutor.SecondRunIsSkipped | Frends.Radon/RadonProgram.cs:19-33 | after a reported run whose newest event has a whole-second time, a second run sends nothing, saves nothing, is skipped and leaves the store as it was |
| RadonExecutor.SubSecondNewestIsReportedAgain | Frends.Radon/EventIdentificationStore.cs:66 | when the newest reported event has a fraction of a second, the second run reports it again |
| RadonExecutor.FailedSendIsRetried | Frends.Radon/RadonProgram.cs:21-22 | for every run that fails after reading, unless a failed write had truncated the record, the watermark is left alone, so the next run sends the same events |
| RadonExecutor.TruncatedRecordStopsLaterRuns | Frends.Radon/EventIdentificationStore.cs:42-49 | after a record write that fails once `FileMode.Create` has truncated the file, the next run fails reading the record, sends nothing and leaves the store as it is |
| Numbers.ToInt16 | Frends.Radon/EventReader.cs:87 | the cast keeps the value modulo 65536 and keeps every value already in the 16-bit range |
| Numbers.IntToString | Frends.Radon/HashBuilder.cs:44-48 | the invariant text of an integer is digits with a leading `-` exactly for negatives, and no line break |
| Numbers.IntToStringInjective | Frends.Radon/HashBuilder.cs:44-48 | distinct integers have distinct invariant texts |
| Numbers.HexWithoutDashes | Frends.Radon/HashBuilder.cs:13 | `BitConverter` text with the dashes removed is two upper-case hex digits per byte |
| Events.EntryTypeNameInjective | Frends.Radon/HashBuilder.cs:45 | distinct entry types have distinct names |
| Events.EntryTypeName | Frends.Radon/HashBuilder.cs:45 | a name is non-empty with no line break, and starts with a digit or `-` exactly for a value without a member name |
| Text.Trim | Frends.Radon/Parser.cs:39 | the result is trimmed and is the input with only white space removed from either end |
| Text.TrimIdempotent | Frends.Radon/Parser.cs:39 | trimming twice is trimming once |
| Text.TrimEmptyIffWhiteSpace | Frends.Radon/Parser.cs:34 | a string trims to "" exactly when it is all white space |
| Text.Split | Frends.Radon/Parser.cs:29 | the pieces hold no separator and join back to the input |
| Text.SplitJoin | Frends.Radon/Parser.cs:29-34 | splitting a join of separator-free pieces gives the pieces back |
| Text.Join | Frends.Radon/Parser.cs:34 | the join of no pieces is "", and any other join starts with its first piece |
| Text.JoinSplits | Frends.Radon/HashBuilder.cs:28-52 | a join of pieces free of the separator character splits back into them |
| Text.JoinSensitive | Frends.Radon/HashBuilder.cs:41-52 | joins of equally long lists that differ in exactly one place differ |
| Platform.WholeSeconds | Frends.Radon/EventIdentificationStore.cs:66 | the time cut to the second is a whole second, at most one second below the time |

## Left out

- Filter-string lexing: the tokens of a filter string come from a `tokenise` parameter. The
  System.Linq.Dynamic grammar for literals and member access, and its "at index N" error text, are
  not modelled. The parse error is an abstract message naming the filter string.
- FilterExpression.ParseUnary: an `EntryType` comparison compares the member name as a string.
  The predicate language instead converts the literal to an `EventLogEntryType` member, so a
  literal naming no member is a parse error there but simply unequal here. The operator in the
  incompatible-operand message is written `Not` whatever case the filter used.
- String comparison in filters is ordinal. Culture-sensitive comparison and conversions between
  numeric types in filter expressions are left out.
- SHA-256, Base64, `DateTime` and `TimeSpan` formatting and `DateTime.Parse` are primitives of
  `Platform`. Their properties are stated as named assumptions, not derived.
- Time zones: `ToUniversalTime` is the identity, since times are UTC ticks.
- Isolated-storage I/O, the static file lock and concurrent access are left out. The store is a
  value, and a failed file write is a parameter of `RadonExecutor.RunOnce`.
- RadonExecutor.RunOnce: a failed record write leaves either the old record or an empty one.
  A write that fails after only part of the text reached the file is not modelled.
- SMTP delivery is left out: `SmtpSender`, `Mailer`, `MailAddress` validation, `IReportSender`,
  and `SmtpSender`'s defaulting of port 0. A delivery failure is a parameter.
- Report rendering is left out: the HTML report, the subject, `TemplateDrops`, DotLiquid and the
  regex helper in `LiquidExtensions`.
- `ExternalEventsReader` (XML parsing) and `EventLogFactory` are left out. The source events are a
  parameter, and the newest-first order is a precondition where a lemma needs it.
- Operating-system event-log access is left out. So is `EventReader`'s retry of an out-of-bounds
  read, since the log is a value that cannot change during a read. The other error of the read,
  a window edge outside the `DateTime` range, is modelled, and the retry loop rethrows it.
- EventReader.GetEventLogEntries: the clock is read once per walk. The source reads
  `DateTime.Now` again for every entry, so a walk that spans a clock tick may stop one entry
  earlier than the model.
- `RadonConfigurationManager`, `Reporter`, the `TryParseInt`, `TryParseBool` and
  `TryParseTimeSpan` helpers, and console output are left out. They are settings plumbing or I/O.
- EventIdentificationStore.Get: a record of exactly one line is read as an error. The source
  reads it as an identification with a null hash, and a null hash matches no event's hash.
- Events: event strings are never null. In the source, a null field would join as "".
- HashBuilder.ConfigSerialisationSensitive: a change of one setting is shown to change the
  configuration serialisation, not the 32-byte digest, which cannot be injective.
- HashBuilder.ChangingOneFieldChangesHash: holds under the `CollisionFree` assumption on the
  event digest.
