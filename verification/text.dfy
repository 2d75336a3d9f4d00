/** The string operations of the .NET base library that the source relies on:
    `Char.IsWhiteSpace`, `String.Trim`, `String.Split(char)`, `String.Join`,
    and the ordinal `Contains` / `StartsWith` / `EndsWith` tests. */
module Text {

  /** `Char.IsWhiteSpace`: the Unicode space, line and paragraph separators,
      the control characters U+0009..U+000D and U+0085. */
  predicate IsWhiteSpace(c: char) {
    var n := c as int;
    || (0x09 <= n <= 0x0D)
    || n == 0x20 || n == 0x85 || n == 0xA0 || n == 0x1680
    || (0x2000 <= n <= 0x200A)
    || n == 0x2028 || n == 0x2029 || n == 0x202F || n == 0x205F || n == 0x3000
  }

  predicate AllWhiteSpace(s: string) {
    forall i :: 0 <= i < |s| ==> IsWhiteSpace(s[i])
  }

  /** Every character of `s` at a position in `lo..hi` is white space. */
  predicate WhiteSpaceBetween(s: string, lo: int, hi: int) {
    forall k :: lo <= k < hi && 0 <= k < |s| ==> IsWhiteSpace(s[k])
  }

  /** Neither the first nor the last character is white space. */
  predicate IsTrimmed(s: string) {
    |s| == 0 || (!IsWhiteSpace(s[0]) && !IsWhiteSpace(s[|s| - 1]))
  }

  /** `String.TrimStart()`: drops the leading white space. */
  function TrimStart(s: string): (r: string)
    ensures |r| <= |s| && r == s[|s| - |r|..]
    ensures WhiteSpaceBetween(s, 0, |s| - |r|)
    ensures |r| == 0 || !IsWhiteSpace(r[0])
  {
    if |s| > 0 && IsWhiteSpace(s[0]) then TrimStart(s[1..]) else s
  }

  /** `String.TrimEnd()`: drops the trailing white space. */
  function TrimEnd(s: string): (r: string)
    ensures |r| <= |s| && r == s[..|r|]
    ensures WhiteSpaceBetween(s, |r|, |s|)
    ensures |r| == 0 || !IsWhiteSpace(r[|r| - 1])
  {
    if |s| > 0 && IsWhiteSpace(s[|s| - 1]) then TrimEnd(s[..|s| - 1]) else s
  }

  /** `r` sits in `s` at position `i`, with only white space before and after it. */
  predicate InfixBetweenWhiteSpace(s: string, r: string, i: int) {
    && 0 <= i && i + |r| <= |s|
    && r == s[i..i + |r|]
    && WhiteSpaceBetween(s, 0, i)
    && WhiteSpaceBetween(s, i + |r|, |s|)
  }

  /** `String.Trim()`: the infix left after cutting the white space on either side;
      it neither starts nor ends with white space. */
  function Trim(s: string): (r: string)
    ensures IsTrimmed(r)
    ensures InfixBetweenWhiteSpace(s, r, |s| - |TrimStart(s)|)
  {
    var t := TrimStart(s);
    var r := TrimEnd(t);
    TrimShape(s, t, r);
    r
  }

  /** Trimming the start and then the end leaves an infix that starts and ends with non-white space. */
  lemma TrimShape(s: string, t: string, r: string)
    requires |t| <= |s| && t == s[|s| - |t|..]
    requires WhiteSpaceBetween(s, 0, |s| - |t|)
    requires |t| == 0 || !IsWhiteSpace(t[0])
    requires |r| <= |t| && r == t[..|r|]
    requires WhiteSpaceBetween(t, |r|, |t|)
    requires |r| == 0 || !IsWhiteSpace(r[|r| - 1])
    ensures IsTrimmed(r)
    ensures InfixBetweenWhiteSpace(s, r, |s| - |t|)
  {
    var i := |s| - |t|;
    if |r| > 0 { assert r[0] == t[0]; }
    forall k | i + |r| <= k < |s| ensures IsWhiteSpace(s[k]) {
      assert s[k] == t[k - i];
    }
  }

  /** A string that is already trimmed is left alone. */
  lemma {:induction false} TrimOfTrimmed(s: string)
    ensures IsTrimmed(s) ==> Trim(s) == s
  {
    if IsTrimmed(s) {
      assert TrimStart(s) == s;
      assert TrimEnd(s) == s;
    }
  }

  /** `Trim` is idempotent. */
  lemma TrimIdempotent(s: string)
    ensures Trim(Trim(s)) == Trim(s)
  {
    TrimOfTrimmed(Trim(s));
  }

  /** `String.IsNullOrWhiteSpace` of a non-null string holds exactly when trimming leaves nothing. */
  lemma {:induction false} TrimEmptyIffWhiteSpace(s: string)
    ensures Trim(s) == "" <==> AllWhiteSpace(s)
  {
    var t := TrimStart(s);
    if Trim(s) == "" {
      assert t == "";
    }
  }

  /** `String.Join(sep, xs)`: the pieces in order with `sep` between neighbours; it starts with
      the first piece and is empty for no pieces. */
  function Join(sep: string, xs: seq<string>): (r: string)
    ensures |xs| == 0 ==> r == ""
    ensures |xs| >= 1 ==> |xs[0]| <= |r| && r[..|xs[0]|] == xs[0]
  {
    if |xs| == 0 then ""
    else if |xs| == 1 then xs[0]
    else xs[0] + sep + Join(sep, xs[1..])
  }

  /** `String.Split(c)`: the pieces between occurrences of `c`, empty pieces kept;
      there is always at least one piece. */
  function Split(s: string, c: char): (r: seq<string>)
    ensures |r| >= 1
    ensures forall i :: 0 <= i < |r| ==> c !in r[i]
    ensures Join([c], r) == s
  {
    if |s| == 0 then [""]
    else
      var rest := Split(s[1..], c);
      if s[0] == c then
        [""] + rest
      else
        var r := [[s[0]] + rest[0]] + rest[1..];
        assert Join([c], r) == s by {
          if |rest| == 1 {
          } else {
            assert r[1..] == rest[1..];
            assert Join([c], rest) == rest[0] + [c] + Join([c], rest[1..]);
          }
        }
        r
  }

  /** Splitting `a + c + b` where `a` has no `c` yields `a` first, then the pieces of `b`. */
  lemma {:induction false} SplitAfterFirst(a: string, b: string, c: char)
    requires c !in a
    ensures Split(a + [c] + b, c) == [a] + Split(b, c)
  {
    if |a| == 0 {
      assert (a + [c] + b)[1..] == b;
    } else {
      assert (a + [c] + b)[1..] == a[1..] + [c] + b;
      SplitAfterFirst(a[1..], b, c);
      assert [a[0]] + a[1..] == a;
    }
  }

  /** Splitting a piece without `c` yields that piece. */
  lemma {:induction false} SplitWithout(a: string, c: char)
    requires c !in a
    ensures Split(a, c) == [a]
  {
    if |a| > 0 {
      SplitWithout(a[1..], c);
      assert [a[0]] + a[1..] == a;
    }
  }

  /** `Split` undoes `Join` when no piece contains the separator. */
  lemma {:induction false} SplitJoin(xs: seq<string>, c: char)
    requires |xs| >= 1
    requires forall i :: 0 <= i < |xs| ==> c !in xs[i]
    ensures Split(Join([c], xs), c) == xs
  {
    if |xs| == 1 {
      SplitWithout(xs[0], c);
    } else {
      SplitJoin(xs[1..], c);
      SplitAfterFirst(xs[0], Join([c], xs[1..]), c);
      assert [xs[0]] + xs[1..] == xs;
    }
  }

  /** The line-by-line form of `SplitJoin`: a join of pieces free of `c` splits back into them. */
  lemma JoinSplits(xs: seq<string>, c: char)
    ensures |xs| >= 1 && (forall i :: 0 <= i < |xs| ==> c !in xs[i]) ==> Split(Join([c], xs), c) == xs
  {
    if |xs| >= 1 && (forall i :: 0 <= i < |xs| ==> c !in xs[i]) {
      SplitJoin(xs, c);
    }
  }

  /** Two joins of equally long lists that agree everywhere but at index `i`,
      where they differ, differ: prefix and suffix are shared. */
  lemma {:induction false} JoinSensitive(sep: string, xs: seq<string>, ys: seq<string>, i: nat)
    requires |xs| == |ys| && i < |xs|
    requires forall j :: 0 <= j < |xs| && j != i ==> xs[j] == ys[j]
    requires xs[i] != ys[i]
    ensures Join(sep, xs) != Join(sep, ys)
  {
    if |xs| == 1 {
    } else if i == 0 {
      assert xs[1..] == ys[1..];
      var tail := sep + Join(sep, xs[1..]);
      assert Join(sep, xs) == xs[0] + tail;
      assert Join(sep, ys) == ys[0] + tail;
      if |xs[0]| == |ys[0]| {
        assert (xs[0] + tail)[..|xs[0]|] == xs[0];
        assert (ys[0] + tail)[..|xs[0]|] == ys[0];
      }
    } else {
      JoinSensitive(sep, xs[1..], ys[1..], i - 1);
      var head := xs[0] + sep;
      assert Join(sep, xs) == head + Join(sep, xs[1..]);
      assert Join(sep, ys) == head + Join(sep, ys[1..]);
      assert (head + Join(sep, xs[1..]))[|head|..] == Join(sep, xs[1..]);
      assert (head + Join(sep, ys[1..]))[|head|..] == Join(sep, ys[1..]);
    }
  }

  /** When neither leading field contains the separator character, the separator's first
      occurrence ends the first field, so equal strings have equal first fields. */
  lemma FirstFieldDetermined(a: string, b: string, s: string, t: string, c: char)
    requires c !in a && c !in b
    requires a + [c] + s == b + [c] + t
    ensures a == b
  {
    SplitAfterFirst(a, s, c);
    SplitAfterFirst(b, t, c);
    assert Split(a + [c] + s, c)[0] == a;
  }

  /** Ordinal `String.Contains`: `sub` occurs at some position of `s`. */
  predicate Contains(s: string, sub: string)
    decreases |s|
  {
    StartsWith(s, sub) || (|s| > 0 && Contains(s[1..], sub))
  }

  /** Ordinal `String.StartsWith`. */
  predicate StartsWith(s: string, prefix: string) {
    |prefix| <= |s| && s[..|prefix|] == prefix
  }

  /** Ordinal `String.EndsWith`. */
  predicate EndsWith(s: string, suffix: string) {
    |suffix| <= |s| && s[|s| - |suffix|..] == suffix
  }

  /** Every piece of a concatenation is contained in it. */
  lemma {:induction false} ContainsMiddle(a: string, b: string, c: string)
    ensures Contains(a + b + c, b)
    decreases |a|
  {
    if |a| == 0 {
      assert a + b + c == b + c;
      assert (b + c)[..|b|] == b;
    } else {
      ContainsMiddle(a[1..], b, c);
      assert (a + b + c)[1..] == a[1..] + b + c;
    }
  }

  /** `String.Replace(c, "")`: every occurrence of `c` removed. */
  function RemoveChar(s: string, c: char): (r: string)
    ensures c !in r
    ensures |r| <= |s|
  {
    if |s| == 0 then ""
    else if s[0] == c then RemoveChar(s[1..], c)
    else [s[0]] + RemoveChar(s[1..], c)
  }

  /** Ordinal string order, used for `<` and `>` between strings. */
  predicate OrdinalLess(a: string, b: string)
    decreases |a|
  {
    if |a| == 0 then |b| > 0
    else if |b| == 0 then false
    else if a[0] != b[0] then a[0] < b[0]
    else OrdinalLess(a[1..], b[1..])
  }
}
