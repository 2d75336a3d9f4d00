/** `LogEventFilter.ReadEvents`: the configured filter string applied to the events read, then
    the optional cap on the number of messages. */
module LogEventFilter {
  import opened Wrappers
  import opened Events
  import Text
  import FilterConfiguration
  import FX = FilterExpression

  /** `Enumerable.Where`: the order-preserving subsequence of the elements that `keep` accepts. */
  function Filter<T>(xs: seq<T>, keep: T -> bool): (r: seq<T>)
    ensures |r| <= |xs|
  {
    if xs == [] then []
    else (if keep(xs[0]) then [xs[0]] else []) + Filter(xs[1..], keep)
  }

  /** The kept elements are exactly the accepted elements. */
  lemma {:induction false} FilterMembers<T>(xs: seq<T>, keep: T -> bool)
    ensures forall y :: y in Filter(xs, keep) <==> y in xs && keep(y)
  {
    if xs != [] {
      FilterMembers(xs[1..], keep);
      assert xs == [xs[0]] + xs[1..];
    }
  }

  /** Filtering distributes over concatenation, so it keeps the relative order of elements. */
  lemma {:induction false} FilterConcat<T>(a: seq<T>, b: seq<T>, keep: T -> bool)
    ensures Filter(a + b, keep) == Filter(a, keep) + Filter(b, keep)
  {
    if a == [] {
      assert a + b == b;
    } else {
      var head := if keep(a[0]) then [a[0]] else [];
      assert (a + b)[0] == a[0];
      assert (a + b)[1..] == a[1..] + b;
      FilterConcat(a[1..], b, keep);
      calc {
        Filter(a + b, keep);
        head + Filter(a[1..] + b, keep);
        head + (Filter(a[1..], keep) + Filter(b, keep));
        (head + Filter(a[1..], keep)) + Filter(b, keep);
      }
    }
  }

  /** A predicate that accepts everything filters nothing out. */
  lemma {:induction false} FilterAllAccepted<T>(xs: seq<T>, keep: T -> bool)
    requires forall y :: y in xs ==> keep(y)
    ensures Filter(xs, keep) == xs
  {
    if xs != [] {
      assert forall y :: y in xs[1..] ==> y in xs;
      FilterAllAccepted(xs[1..], keep);
      assert [xs[0]] + xs[1..] == xs;
    }
  }

  /** The events that satisfy a filter expression, in their original order. */
  function Where(events: seq<LogEvent>, x: FX.Expr): (r: seq<LogEvent>)
    ensures |r| <= |events|
    ensures forall e :: e in r <==> e in events && FX.Eval(x, e)
  {
    var r := Filter(events, (e: LogEvent) => FX.Eval(x, e));
    FilterMembers(events, (e: LogEvent) => FX.Eval(x, e));
    r
  }

  /** `Where` keeps the relative order of events: it distributes over concatenation. */
  lemma WhereConcat(a: seq<LogEvent>, b: seq<LogEvent>, x: FX.Expr)
    ensures Where(a + b, x) == Where(a, x) + Where(b, x)
  {
    FilterConcat(a, b, (e: LogEvent) => FX.Eval(x, e));
  }

  /** An expression every event satisfies filters nothing out. */
  lemma WhereAllMatch(events: seq<LogEvent>, x: FX.Expr)
    requires forall e :: e in events ==> FX.Eval(x, e)
    ensures Where(events, x) == events
  {
    FilterAllAccepted(events, (e: LogEvent) => FX.Eval(x, e));
  }

  /** `Enumerable.Take`: the first `n` elements, or all of them when there are fewer; none when
      `n` is not positive. */
  function Take<T>(xs: seq<T>, n: int): (r: seq<T>)
    ensures |r| == if n <= 0 then 0 else if n < |xs| then n else |xs|
    ensures r == xs[..|r|]
  {
    if n <= 0 then [] else if n < |xs| then xs[..n] else xs
  }

  /** The message of the argument error raised for a filter string that does not parse. */
  function ParseFailureMessage(filterString: string, detail: string): (m: string)
    ensures Text.Contains(m, filterString)
  {
    var prefix := "Could not parse filter string '";
    Text.ContainsMiddle(prefix, filterString, "': " + detail);
    prefix + filterString + ("': " + detail)
  }

  /** The filter string parsed to an expression: `tokenise` stands for the dynamic-LINQ lexer. */
  function ParseFilter(filterString: string, tokenise: string -> Result<seq<FX.Token>, string>): (r: Result<FX.Expr, string>)
    ensures tokenise(filterString).Failure? ==> r == Failure(tokenise(filterString).error)
    ensures r.Success? ==> tokenise(filterString).Success? && tokenise(filterString).value != []
  {
    var tokens :- tokenise(filterString);
    FX.Parse(tokens)
  }

  /** A filter string whose tokens are the printed form of an expression parses to that expression. */
  lemma PrintedFilterParses(filterString: string, tokenise: string -> Result<seq<FX.Token>, string>, x: FX.Expr)
    requires tokenise(filterString) == Success(FX.Print(x))
    ensures ParseFilter(filterString, tokenise) == Success(x)
  {
    FX.ParsePrintRoundTrip(x);
  }

  /** `ReadEvents`: an empty filter string selects every event, any other string must parse;
      then the result is capped at `MaxMessages` when `UseMaxMessages` holds. */
  function ReadEvents(
    events: seq<LogEvent>, config: FilterConfiguration.FilterConfig,
    tokenise: string -> Result<seq<FX.Token>, string>): (r: Result<seq<LogEvent>, string>)
    ensures r.Failure? <==> config.filterString != "" && ParseFilter(config.filterString, tokenise).Failure?
    ensures r.Failure? ==> Text.Contains(r.error, config.filterString)
    ensures r.Success? ==> |r.value| <= |events| && forall e :: e in r.value ==> e in events
    ensures r.Success? && config.useMaxMessages ==> |r.value| <= if config.maxMessages < 0 then 0 else config.maxMessages as int
    ensures config.filterString == "" && !config.useMaxMessages ==> r == Success(events)
  {
    var query :-
      if config.filterString == "" then Success(events)
      else match ParseFilter(config.filterString, tokenise)
        case Failure(detail) => Failure(ParseFailureMessage(config.filterString, detail))
        case Success(x) => Success(Where(events, x));
    var result := if config.useMaxMessages then Take(query, config.maxMessages) else query;
    assert forall e :: e in result ==> e in query by {
      forall e | e in result ensures e in query {
        var i :| 0 <= i < |result| && result[i] == e;
        assert result[i] == query[i];
      }
    }
    Success(result)
  }

  /** Without a cap, the result is exactly the matching events in their original order. */
  lemma UncappedIsMatchingSubsequence(
    events: seq<LogEvent>, config: FilterConfiguration.FilterConfig,
    tokenise: string -> Result<seq<FX.Token>, string>, x: FX.Expr)
    requires !config.useMaxMessages
    requires config.filterString != "" && ParseFilter(config.filterString, tokenise) == Success(x)
    ensures ReadEvents(events, config, tokenise) == Success(Where(events, x))
    ensures forall a, b :: ReadEvents(a + b, config, tokenise) ==
                           Success(ReadEvents(a, config, tokenise).value + ReadEvents(b, config, tokenise).value)
  {
    forall a, b ensures ReadEvents(a + b, config, tokenise) ==
                        Success(ReadEvents(a, config, tokenise).value + ReadEvents(b, config, tokenise).value) {
      WhereConcat(a, b, x);
    }
  }

  /** With a cap, the result is the first `MaxMessages` matches, and its length is the smaller of
      the cap and the number of matches. */
  lemma CappedIsFirstMatches(
    events: seq<LogEvent>, config: FilterConfiguration.FilterConfig,
    tokenise: string -> Result<seq<FX.Token>, string>, x: FX.Expr)
    requires config.useMaxMessages && config.maxMessages > 0
    requires config.filterString != "" && ParseFilter(config.filterString, tokenise) == Success(x)
    ensures var r := ReadEvents(events, config, tokenise);
            && r.Success?
            && |r.value| == (if config.maxMessages < |Where(events, x)| then config.maxMessages as int else |Where(events, x)|)
            && r.value == Where(events, x)[..|r.value|]
  {
  }

  /** With an empty filter string and a cap, the first `MaxMessages` events pass. */
  lemma EmptyFilterCapped(
    events: seq<LogEvent>, config: FilterConfiguration.FilterConfig,
    tokenise: string -> Result<seq<FX.Token>, string>)
    requires config.filterString == "" && config.useMaxMessages && config.maxMessages > 0
    ensures var r := ReadEvents(events, config, tokenise);
            && r.Success?
            && |r.value| == (if config.maxMessages < |events| then config.maxMessages as int else |events|)
            && r.value == events[..|r.value|]
  {
  }
}
