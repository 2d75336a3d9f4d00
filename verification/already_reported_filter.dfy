/** `AlreadyReportedFilter.ReadEvents`: the newest-first events are taken while they are newer
    than the stored watermark, or as old as it but with another hash; the first event that is
    neither ends the walk. */
module AlreadyReportedFilter {
  import opened Wrappers
  import opened Events
  import Platform
  import HashBuilder

  /** The `TakeWhile` predicate: strictly newer than the watermark, or at the same timestamp with
      a different hash. */
  predicate StillNew(p: Platform.Primitives, w: EventIdentification, e: LogEvent) {
    || e.timeGenerated > w.timeStampUtc
    || (e.timeGenerated == w.timeStampUtc && HashBuilder.EventHash(p, e) != w.hash)
  }

  /** An event is still new exactly when it is not older than the watermark and is not the event
      the watermark identifies. */
  lemma StillNewIsNotTheWatermark(p: Platform.Primitives, w: EventIdentification, e: LogEvent)
    ensures StillNew(p, w, e) <==> e.timeGenerated >= w.timeStampUtc && HashBuilder.BuildEventIdentification(p, e) != w
  {
  }

  /** The longest prefix of `events` whose every event is still new. */
  function TakeWhileNew(p: Platform.Primitives, w: EventIdentification, events: seq<LogEvent>): (r: seq<LogEvent>)
    ensures |r| <= |events| && r == events[..|r|]
    ensures forall i :: 0 <= i < |r| ==> StillNew(p, w, events[i])
    ensures |r| < |events| ==> !StillNew(p, w, events[|r|])
  {
    if events == [] || !StillNew(p, w, events[0]) then []
    else [events[0]] + TakeWhileNew(p, w, events[1..])
  }

  /** `ReadEvents`, given the identification the store returned for this configuration. */
  function ReadEvents(p: Platform.Primitives, stored: Option<EventIdentification>, events: seq<LogEvent>): (r: seq<LogEvent>)
    ensures stored.None? ==> r == events
    ensures |r| <= |events| && r == events[..|r|]
    ensures stored.Some? ==> forall i :: 0 <= i < |r| ==> StillNew(p, stored.value, events[i])
    ensures stored.Some? && |r| < |events| ==> !StillNew(p, stored.value, events[|r|])
  {
    if stored.None? then events else TakeWhileNew(p, stored.value, events)
  }

  /** The output length is the index of the first event that is not new, or the whole length. */
  lemma CutAt(p: Platform.Primitives, w: EventIdentification, events: seq<LogEvent>, k: nat)
    requires k <= |events|
    requires forall j :: 0 <= j < k ==> StillNew(p, w, events[j])
    requires k < |events| ==> !StillNew(p, w, events[k])
    ensures |ReadEvents(p, Some(w), events)| == k
  {
  }

  /** The walk never resumes: once event `k` is not new, no event from `k` on is returned, even
      one that is newer than the watermark. */
  lemma NeverResumes(p: Platform.Primitives, w: EventIdentification, events: seq<LogEvent>, k: nat)
    requires k < |events| && !StillNew(p, w, events[k])
    ensures var r := ReadEvents(p, Some(w), events);
            |r| <= k && r == events[..|r|]
  {
  }

  /** An event at the watermark's timestamp but with another hash still passes: with such a
      watermark at event `i`, the output on strictly newest-first events is events `0..i`. */
  lemma SameTimeOtherHashPasses(p: Platform.Primitives, events: seq<LogEvent>, i: nat, w: EventIdentification)
    requires StrictlyNewestFirst(events)
    requires i < |events|
    requires w.timeStampUtc == events[i].timeGenerated && w.hash != HashBuilder.EventHash(p, events[i])
    ensures ReadEvents(p, Some(w), events) == events[..i + 1]
  {
    CutAt(p, w, events, i + 1);
  }

  /** With the identification of event `i` as the watermark, exactly the `i` newer events pass. */
  lemma StopsAtReportedEvent(p: Platform.Primitives, events: seq<LogEvent>, i: nat)
    requires StrictlyNewestFirst(events)
    requires i < |events|
    ensures ReadEvents(p, Some(HashBuilder.BuildEventIdentification(p, events[i])), events) == events[..i]
  {
    CutAt(p, HashBuilder.BuildEventIdentification(p, events[i]), events, i);
  }

  /** Idempotence: once the newest event is the watermark, nothing passes. */
  lemma NewestReportedGivesNothing(p: Platform.Primitives, events: seq<LogEvent>)
    requires events != []
    ensures ReadEvents(p, Some(HashBuilder.BuildEventIdentification(p, events[0])), events) == []
  {
  }

  /** A watermark whose timestamp was cut to whole seconds stops the walk at the newest event
      exactly when that event's timestamp already was a whole second; otherwise the newest event
      reads as newer than its own watermark and is reported again. */
  lemma TruncatedWatermark(p: Platform.Primitives, events: seq<LogEvent>)
    requires events != []
    ensures var w := EventIdentification(HashBuilder.EventHash(p, events[0]), Platform.WholeSeconds(events[0].timeGenerated));
            ReadEvents(p, Some(w), events) == [] <==> events[0].timeGenerated % Platform.TicksPerSecond == 0
  {
  }
}
