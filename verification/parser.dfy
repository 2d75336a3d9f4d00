/** The string helpers of `Parser`: the recipient list in both directions and the
    null-tolerant trim used by both configuration classes. */
module Parser {
  import opened Wrappers
  import Text

  /** How a normalised setting relates to the value given for it: null becomes "", otherwise the
      setting is the given text with the white space on both sides cut away. */
  predicate TrimmedFrom(given: Option<string>, setting: string) {
    && Text.IsTrimmed(setting)
    && (given.None? ==> setting == "")
    && (given.Some? ==>
          Text.InfixBetweenWhiteSpace(given.value, setting, |given.value| - |Text.TrimStart(given.value)|))
  }

  /** `TrimLineOrReturnStringEmptyIfNull`: null becomes the empty string, anything else is trimmed. */
  function TrimLineOrReturnStringEmptyIfNull(line: Option<string>): (r: string)
    ensures TrimmedFrom(line, r)
    ensures line.Some? && Text.IsTrimmed(line.value) ==> r == line.value
  {
    if line.None? then "" else Text.TrimOfTrimmed(line.value); Text.Trim(line.value)
  }

  /** Normalising a line twice is normalising it once. */
  lemma TrimLineIdempotent(line: Option<string>)
    ensures TrimLineOrReturnStringEmptyIfNull(Some(TrimLineOrReturnStringEmptyIfNull(line)))
            == TrimLineOrReturnStringEmptyIfNull(line)
  {
    Text.TrimOfTrimmed(TrimLineOrReturnStringEmptyIfNull(line));
  }

  /** What a recipient address looks like after parsing: non-empty, trimmed, free of `;`. */
  predicate IsRecipient(s: string) {
    s != "" && Text.IsTrimmed(s) && ';' !in s
  }

  /** A trimmed infix of a string holds only characters of that string. */
  lemma TrimKeepsAbsence(s: string, c: char)
    ensures c !in s ==> c !in Text.Trim(s)
  {
  }

  /** One trimmed piece: trimmed, and free of `;` when the piece was. */
  function TrimPiece(x: string): (t: string)
    ensures Text.IsTrimmed(t)
    ensures ';' !in x ==> ';' !in t
  {
    TrimKeepsAbsence(x, ';');
    Text.Trim(x)
  }

  /** `pieces.Select(m => m.Trim()).Where(u => !string.IsNullOrEmpty(u))`. */
  function TrimmedNonEmpty(pieces: seq<string>): (r: seq<string>)
    ensures |r| <= |pieces|
    ensures forall x :: x in r ==> x != "" && Text.IsTrimmed(x)
    ensures (forall x :: x in pieces ==> ';' !in x) ==> forall x :: x in r ==> ';' !in x
  {
    if |pieces| == 0 then []
    else
      var rest := TrimmedNonEmpty(pieces[1..]);
      var t := TrimPiece(pieces[0]);
      if t == "" then rest else [t] + rest
  }

  lemma TrimOfRecipient(x: string)
    requires IsRecipient(x)
    ensures Text.Trim(x) == x
  {
    Text.TrimOfTrimmed(x);
  }

  /** A list of recipients passes `TrimmedNonEmpty` unchanged. */
  lemma {:induction false} TrimmedNonEmptyOfRecipients(xs: seq<string>)
    requires forall x :: x in xs ==> IsRecipient(x)
    ensures TrimmedNonEmpty(xs) == xs
  {
    if |xs| > 0 {
      TrimOfRecipient(xs[0]);
      TrimmedNonEmptyOfRecipients(xs[1..]);
      assert [xs[0]] + xs[1..] == xs;
    }
  }

  /** What `TrimmedNonEmpty` holds: exactly the non-empty trims of the pieces. */
  lemma {:induction false} TrimmedNonEmptyMembers(pieces: seq<string>)
    ensures forall y :: y in TrimmedNonEmpty(pieces) <==> y != "" && exists x :: x in pieces && Text.Trim(x) == y
  {
    TrimmedNonEmptyKeeps(pieces);
    if |pieces| > 0 {
      TrimmedNonEmptyMembers(pieces[1..]);
      forall y | y in TrimmedNonEmpty(pieces)
        ensures exists x :: x in pieces && Text.Trim(x) == y
      {
        if y !in TrimmedNonEmpty(pieces[1..]) {
          assert Text.Trim(pieces[0]) == y;
        } else {
          var x :| x in pieces[1..] && Text.Trim(x) == y;
          assert x in pieces;
        }
      }
    }
  }

  /** The head and tail of a concatenation whose first part is not empty. */
  lemma SplitConcat<T>(a: seq<T>, b: seq<T>)
    requires |a| > 0
    ensures (a + b)[0] == a[0] && (a + b)[1..] == a[1..] + b
  {
  }

  lemma ConcatAssoc<T>(x: seq<T>, y: seq<T>, z: seq<T>)
    ensures x + (y + z) == (x + y) + z
  {
  }

  /** Order is kept: the pieces of a concatenation are processed part by part. */
  lemma {:induction false} TrimmedNonEmptyConcat(a: seq<string>, b: seq<string>)
    ensures TrimmedNonEmpty(a + b) == TrimmedNonEmpty(a) + TrimmedNonEmpty(b)
  {
    if |a| > 0 {
      SplitConcat(a, b);
      TrimmedNonEmptyConcat(a[1..], b);
      ConcatAssoc([TrimPiece(a[0])], TrimmedNonEmpty(a[1..]), TrimmedNonEmpty(b));
    } else {
      assert a + b == b;
    }
  }

  /** `ParseRecipientsToList`: null and "" give no recipients; otherwise the `;`-separated
      pieces, trimmed, with the empty ones dropped, in their original order. */
  function ParseRecipientsToList(recipients: Option<string>): (r: seq<string>)
    ensures recipients.None? || recipients.value == "" ==> r == []
    ensures forall x :: x in r ==> IsRecipient(x)
    ensures recipients.Some? ==>
              forall y :: y in r <==> y != "" && exists x :: x in Text.Split(recipients.value, ';') && Text.Trim(x) == y
  {
    if recipients.None? then []
    else
      var pieces := Text.Split(recipients.value, ';');
      TrimmedNonEmptyMembers(pieces);
      if recipients.value == "" then
        Text.SplitWithout(recipients.value, ';');
        assert Text.Trim("") == "";
        []
      else
        assert forall x :: x in pieces ==> ';' !in x;
        TrimmedNonEmpty(pieces)
  }

  /** A non-null input parses to the trimmed non-empty pieces of its split, "" included. */
  lemma ParseIsTrimmedPieces(s: string)
    ensures ParseRecipientsToList(Some(s)) == TrimmedNonEmpty(Text.Split(s, ';'))
  {
    if s == "" {
      assert Text.Split(s, ';') == [""];
      assert Text.Trim("") == "";
    }
  }

  /** A single address field (no `;`) parses to its trim, or to nothing when it is blank. */
  lemma OneAddress(a: string)
    requires ';' !in a
    ensures ParseRecipientsToList(Some(a)) == if Text.AllWhiteSpace(a) then [] else [Text.Trim(a)]
  {
    Text.TrimEmptyIffWhiteSpace(a);
    Text.SplitWithout(a, ';');
    ParseIsTrimmedPieces(a);
  }

  /** Parsing goes left to right: the addresses before the first `;` come first, followed by
      the addresses of the rest, so the original order is kept. */
  lemma AddressesInOrder(a: string, b: string)
    requires ';' !in a
    ensures ParseRecipientsToList(Some(a + ";" + b)) == ParseRecipientsToList(Some(a)) + ParseRecipientsToList(Some(b))
  {
    Text.SplitAfterFirst(a, b, ';');
    Text.SplitWithout(a, ';');
    ParseIsTrimmedPieces(a + ";" + b);
    ParseIsTrimmedPieces(a);
    ParseIsTrimmedPieces(b);
    TrimmedNonEmptyConcat([a], Text.Split(b, ';'));
  }

  /** No address is lost: every piece that is not blank appears, trimmed, in the result. */
  lemma {:induction false} TrimmedNonEmptyKeeps(pieces: seq<string>)
    ensures forall x :: x in pieces && Text.Trim(x) != "" ==> Text.Trim(x) in TrimmedNonEmpty(pieces)
  {
    if |pieces| > 0 {
      TrimmedNonEmptyKeeps(pieces[1..]);
      forall x | x in pieces && Text.Trim(x) != ""
        ensures Text.Trim(x) in TrimmedNonEmpty(pieces)
      {
        if x != pieces[0] {
          assert x in pieces[1..];
        }
      }
    }
  }

  /** Every non-blank `;`-separated piece of the input is among the parsed recipients, trimmed. */
  lemma {:induction false} EveryAddressIsKept(s: string)
    ensures forall x :: x in Text.Split(s, ';') && Text.Trim(x) != "" ==> Text.Trim(x) in ParseRecipientsToList(Some(s))
  {
    if s == "" {
      Text.SplitWithout(s, ';');
      Text.TrimEmptyIffWhiteSpace(s);
    } else {
      TrimmedNonEmptyKeeps(Text.Split(s, ';'));
    }
  }

  /** Recipients joined with `;` parse back to the same list, in the same order. */
  lemma JoinedRecipientsParse(xs: seq<string>)
    requires forall x :: x in xs ==> IsRecipient(x)
    ensures ParseRecipientsToList(Some(Text.Join(";", xs))) == xs
  {
    NonBlankTrimmedOfRecipients(xs);
    ListOfString(AsEntries(xs));
  }

  /** `recipients.Where(u => !string.IsNullOrWhiteSpace(u)).Select(m => m.Trim())`. */
  function NonBlankTrimmed(entries: seq<Option<string>>): (r: seq<string>)
    ensures |r| <= |entries|
    ensures forall x :: x in r ==> x != "" && Text.IsTrimmed(x)
    ensures (forall x :: Some(x) in entries ==> ';' !in x) ==> forall x :: x in r ==> ';' !in x
  {
    if |entries| == 0 then []
    else
      var rest := NonBlankTrimmed(entries[1..]);
      match entries[0]
      case None => rest
      case Some(x) =>
        if Text.AllWhiteSpace(x) then rest
        else
          Text.TrimEmptyIffWhiteSpace(x);
          [TrimPiece(x)] + rest
  }

  /** What `NonBlankTrimmed` holds: exactly the trims of the non-null, non-blank entries. */
  lemma {:induction false} NonBlankTrimmedMembers(entries: seq<Option<string>>)
    ensures forall y :: y in NonBlankTrimmed(entries) <==>
              exists x :: Some(x) in entries && !Text.AllWhiteSpace(x) && Text.Trim(x) == y
  {
    NonBlankTrimmedKeeps(entries);
    if |entries| > 0 {
      NonBlankTrimmedMembers(entries[1..]);
      forall y | y in NonBlankTrimmed(entries)
        ensures exists x :: Some(x) in entries && !Text.AllWhiteSpace(x) && Text.Trim(x) == y
      {
        if y !in NonBlankTrimmed(entries[1..]) {
          assert Some(entries[0].value) in entries;
        } else {
          var x :| Some(x) in entries[1..] && !Text.AllWhiteSpace(x) && Text.Trim(x) == y;
          assert Some(x) in entries;
        }
      }
    }
  }

  /** Order is kept: the entries of a concatenation are processed part by part. */
  lemma {:induction false} NonBlankTrimmedConcat(a: seq<Option<string>>, b: seq<Option<string>>)
    ensures NonBlankTrimmed(a + b) == NonBlankTrimmed(a) + NonBlankTrimmed(b)
  {
    if |a| > 0 {
      SplitConcat(a, b);
      NonBlankTrimmedConcat(a[1..], b);
      if a[0].Some? {
        ConcatAssoc([TrimPiece(a[0].value)], NonBlankTrimmed(a[1..]), NonBlankTrimmed(b));
      }
    } else {
      assert a + b == b;
    }
  }

  /** Every non-null entry that is not blank appears, trimmed, in the result. */
  lemma {:induction false} NonBlankTrimmedKeeps(entries: seq<Option<string>>)
    ensures forall x :: Some(x) in entries && !Text.AllWhiteSpace(x) ==> Text.Trim(x) in NonBlankTrimmed(entries)
  {
    if |entries| > 0 {
      NonBlankTrimmedKeeps(entries[1..]);
      forall x | Some(x) in entries && !Text.AllWhiteSpace(x)
        ensures Text.Trim(x) in NonBlankTrimmed(entries)
      {
        if Some(x) != entries[0] {
          assert Some(x) in entries[1..];
        }
      }
    }
  }

  /** `ParseRecipientsToString`: null gives ""; otherwise the non-blank entries, trimmed,
      joined with `;`. */
  function ParseRecipientsToString(recipients: Option<seq<Option<string>>>): (r: string)
    ensures recipients.None? ==> r == ""
    ensures recipients.Some? ==> (r == "" <==> forall x :: Some(x) in recipients.value ==> Text.AllWhiteSpace(x))
    ensures recipients.Some? && r != "" && (forall x :: Some(x) in recipients.value ==> ';' !in x) ==>
              Text.Split(r, ';') == NonBlankTrimmed(recipients.value)
  {
    if recipients.None? then ""
    else
      PrintedEntries(recipients.value);
      Text.Join(";", NonBlankTrimmed(recipients.value))
  }

  /** The joined entries are empty exactly when every entry is blank, and, when no entry holds
      a `;`, splitting the join at `;` gives the entries back. */
  lemma PrintedEntries(entries: seq<Option<string>>)
    ensures var ys := NonBlankTrimmed(entries);
            && (ys == [] <==> forall x :: Some(x) in entries ==> Text.AllWhiteSpace(x))
            && (ys != [] ==> Text.Join(";", ys) != "")
            && (ys != [] && (forall x :: Some(x) in entries ==> ';' !in x) ==> Text.Split(Text.Join(";", ys), ';') == ys)
  {
    var ys := NonBlankTrimmed(entries);
    NonBlankTrimmedKeeps(entries);
    if ys != [] {
      assert ys[0] in ys;
      NonBlankTrimmedMembers(entries);
      assert |Text.Join(";", ys)| >= |ys[0]| > 0;
      if forall x :: Some(x) in entries ==> ';' !in x {
        Text.SplitJoin(ys, ';');
      }
    }
  }

  /** A list of clean addresses prints as the addresses joined with `;`. */
  lemma StringOfRecipients(xs: seq<string>)
    requires forall x :: x in xs ==> IsRecipient(x)
    ensures ParseRecipientsToString(Some(AsEntries(xs))) == Text.Join(";", xs)
  {
    NonBlankTrimmedOfRecipients(xs);
  }

  /** A list of strings as the non-null entries of a .NET list. */
  function AsEntries(xs: seq<string>): (r: seq<Option<string>>)
    ensures |r| == |xs|
    ensures forall i :: 0 <= i < |xs| ==> r[i] == Some(xs[i])
    ensures forall x :: Some(x) in r <==> x in xs
  {
    seq(|xs|, i requires 0 <= i < |xs| => Some(xs[i]))
  }

  lemma {:induction false} NonBlankTrimmedOfRecipients(xs: seq<string>)
    requires forall x :: x in xs ==> IsRecipient(x)
    ensures NonBlankTrimmed(AsEntries(xs)) == xs
  {
    if |xs| > 0 {
      TrimOfRecipient(xs[0]);
      assert !Text.AllWhiteSpace(xs[0]) by { assert !Text.IsWhiteSpace(xs[0][0]); }
      assert AsEntries(xs)[1..] == AsEntries(xs[1..]);
      NonBlankTrimmedOfRecipients(xs[1..]);
      assert [xs[0]] + xs[1..] == xs;
    }
  }

  /** Printing a list whose entries hold no `;` and parsing it back yields exactly its
      non-blank entries, trimmed. */
  lemma ListOfString(entries: seq<Option<string>>)
    requires forall x :: Some(x) in entries ==> ';' !in x
    ensures ParseRecipientsToList(Some(ParseRecipientsToString(Some(entries)))) == NonBlankTrimmed(entries)
  {
    var ys := NonBlankTrimmed(entries);
    if |ys| > 0 {
      Text.SplitJoin(ys, ';');
      TrimmedNonEmptyOfRecipients(ys);
    }
  }

  /** The recipient list survives a round trip through its string form:
      `ParseRecipientsToList(ParseRecipientsToString(ParseRecipientsToList(s))) == ParseRecipientsToList(s)`. */
  lemma RecipientsRoundTrip(s: Option<string>)
    ensures ParseRecipientsToList(Some(ParseRecipientsToString(Some(AsEntries(ParseRecipientsToList(s))))))
            == ParseRecipientsToList(s)
  {
    var xs := ParseRecipientsToList(s);
    ListOfString(AsEntries(xs));
    NonBlankTrimmedOfRecipients(xs);
  }
}
