/**
 * The detail-page reader: the description text of one listing, formatted as its
 * paragraphs separated by blank lines; the rental period announced in its
 * "frei ab:" line; and the archive of description texts kept in JSON files.
 */
module ListingInfoGetter {
  import opened Wrappers
  import opened Text
  import opened Dates

  // ---------------------------------------------------------------- listing_text

  const ParagraphBreak := "\n\n"

  /**
   * The description as listing_text builds it: each chunk stripped and followed by
   * a blank line. Its length is the stripped chunks' lengths plus two per chunk,
   * and it ends in a blank line unless empty.
   */
  function Formatted(chunks: seq<string>): (r: string)
    ensures |r| == StrippedLength(chunks) + 2 * |chunks|
    ensures chunks != [] ==> |r| >= 2 && r[|r| - 2..] == ParagraphBreak
    decreases |chunks|
  {
    if chunks == [] then ""
    else Formatted(chunks[..|chunks| - 1]) + Strip(chunks[|chunks| - 1]) + ParagraphBreak
  }

  /** Formatting one more chunk appends that chunk, stripped, and a blank line. */
  lemma FormattedSnoc(chunks: seq<string>, i: nat)
    requires i < |chunks|
    ensures Formatted(chunks[..i + 1]) == Formatted(chunks[..i]) + (Strip(chunks[i]) + ParagraphBreak)
  {
    var upto := chunks[..i + 1];
    assert upto[..|upto| - 1] == chunks[..i] && upto[|upto| - 1] == chunks[i];
  }

  /** Joining with no separator after appending two pieces appends them both. */
  lemma JoinPair(pieces: seq<string>, a: string, b: string)
    ensures Join(pieces + [a, b], "") == Join(pieces, "") + (a + b)
  {
    ConcatAppend(pieces, [a, b]);
    JoinTwo(a, b, "");
  }

  /** listing_text: the loop extends a list with each stripped chunk and a blank line, then joins it. */
  method ListingText(chunks: seq<string>) returns (text: string)
    ensures text == Formatted(chunks)
  {
    var pieces: seq<string> := [];
    for i := 0 to |chunks|
      invariant Join(pieces, "") == Formatted(chunks[..i])
    {
      FormattedSnoc(chunks, i);
      JoinPair(pieces, Strip(chunks[i]), ParagraphBreak);
      pieces := pieces + [Strip(chunks[i]), ParagraphBreak];
    }
    assert chunks[..|chunks|] == chunks;
    text := Join(pieces, "");
  }

  /**
   * The description is the stripped chunks joined by blank lines, with a blank line
   * after the last one.
   */
  lemma {:induction false} FormattedIsJoin(chunks: seq<string>)
    requires chunks != []
    ensures Formatted(chunks) == Join(Strips(chunks), ParagraphBreak) + ParagraphBreak
    decreases |chunks|
  {
    var n := |chunks|;
    var x := Strip(chunks[n - 1]);
    if n == 1 {
      assert chunks[..0] == [];
      assert "" + x == x;
    } else {
      var init := chunks[..n - 1];
      FormattedIsJoin(init);
      StripsLast(chunks);
      JoinAppend(Strips(init), x, ParagraphBreak);
    }
  }

  lemma StripsLast(chunks: seq<string>)
    requires chunks != []
    ensures Strips(chunks) == Strips(chunks[..|chunks| - 1]) + [Strip(chunks[|chunks| - 1])]
  {
    var init := chunks[..|chunks| - 1];
    var r := Strips(init) + [Strip(chunks[|chunks| - 1])];
    assert forall i | 0 <= i < |chunks| :: Strips(chunks)[i] == r[i];
  }

  function StrippedLength(chunks: seq<string>): nat
    decreases |chunks|
  {
    if chunks == [] then 0 else StrippedLength(chunks[..|chunks| - 1]) + |Strip(chunks[|chunks| - 1])|
  }

  // ---------------------------------------------------------------- rental_duration_months

  const OfferMarker := "frei ab:"
  const TokenSeparators: set<char> := {' ', '\n'}
  const MissingDatesMessage := "Could not get rental dates!"

  /** The exceptions rental_duration_months raises. */
  datatype DurationError = MissingDates(message: string) | BadRange(rangeError: RangeError)

  /** A paragraph announcing the rental period. */
  predicate IsOffer(paragraph: string) {
    Contains(Strip(paragraph), OfferMarker)
  }

  /** The words that hold a '.', in order. */
  function Dotted(words: seq<string>): (r: seq<string>)
    ensures |r| <= |words|
    ensures forall i | 0 <= i < |r| :: '.' in r[i]
    decreases |words|
  {
    if words == [] then []
    else (if '.' in words[0] then [words[0]] else []) + Dotted(words[1..])
  }

  /** Keeping dotted words works word by word: the kept words of a concatenation, in order. */
  lemma {:induction false} DottedAppend(a: seq<string>, b: seq<string>)
    ensures Dotted(a + b) == Dotted(a) + Dotted(b)
    decreases |a|
  {
    if a == [] {
      assert a + b == b;
    } else {
      var keep := if '.' in a[0] then [a[0]] else [];
      assert (a + b)[0] == a[0] && (a + b)[1..] == a[1..] + b;
      DottedAppend(a[1..], b);
      assert keep + (Dotted(a[1..]) + Dotted(b)) == (keep + Dotted(a[1..])) + Dotted(b);
    }
  }

  /** A single word is kept exactly when it holds a '.'. */
  lemma DottedOne(w: string)
    ensures Dotted([w]) == (if '.' in w then [w] else [])
  {
    assert [w][1..] == [];
  }

  /** Every word that holds a '.' is kept. */
  lemma {:induction false} DottedKeeps(words: seq<string>)
    ensures forall w | w in words && '.' in w :: w in Dotted(words)
    decreases |words|
  {
    if words != [] {
      DottedKeeps(words[1..]);
      assert forall w | w in words && w != words[0] :: w in words[1..];
    }
  }

  /** The date tokens of an offer paragraph: double spaces removed, split at spaces and line breaks, dotted words kept. */
  function DateTokens(paragraph: string): seq<string> {
    Dotted(SplitAny(Replace(Strip(paragraph), "  ", ""), TokenSeparators))
  }

  /** The date tokens as the loop leaves them: those of the last offer paragraph, none if there is no offer. */
  function LastDates(paragraphs: seq<string>): seq<string>
    decreases |paragraphs|
  {
    if paragraphs == [] then []
    else if IsOffer(paragraphs[|paragraphs| - 1]) then DateTokens(paragraphs[|paragraphs| - 1])
    else LastDates(paragraphs[..|paragraphs| - 1])
  }

  /** The months of the rental the paragraphs announce, or the error rental_duration_months raises. */
  function DurationOf(paragraphs: seq<string>): Result<int, DurationError> {
    var dates := LastDates(paragraphs);
    if dates == [] then Err(MissingDates(MissingDatesMessage))
    else
      match RangeLength(Join(dates, "-"))
      case Ok(months) => Ok(months)
      case Err(e) => Err(BadRange(e))
  }

  /** rental_duration_months over the page's period paragraphs. */
  method RentalDurationMonths(paragraphs: seq<string>) returns (r: Result<int, DurationError>)
    ensures r == DurationOf(paragraphs)
  {
    var dates: seq<string> := [];
    for i := 0 to |paragraphs|
      invariant dates == LastDates(paragraphs[..i])
    {
      assert paragraphs[..i + 1][..i] == paragraphs[..i];
      var text := Strip(paragraphs[i]);
      if Contains(text, OfferMarker) {
        text := Replace(text, "  ", "");
        dates := Dotted(SplitAny(text, TokenSeparators));
      }
    }
    assert paragraphs[..|paragraphs|] == paragraphs;
    if dates != [] {
      var months := RangeLength(Join(dates, "-"));
      if months.Err? {
        return Err(BadRange(months.error));
      }
      return Ok(months.value);
    } else {
      return Err(MissingDates(MissingDatesMessage));
    }
  }

  /** The last offer paragraph decides: paragraphs after it change nothing, earlier offers are overridden. */
  lemma {:induction false} LastOfferWins(paragraphs: seq<string>, k: nat)
    requires k < |paragraphs| && IsOffer(paragraphs[k])
    requires forall j | k < j < |paragraphs| :: !IsOffer(paragraphs[j])
    ensures LastDates(paragraphs) == DateTokens(paragraphs[k])
    decreases |paragraphs|
  {
    if k < |paragraphs| - 1 {
      var init := paragraphs[..|paragraphs| - 1];
      assert init[k] == paragraphs[k];
      LastOfferWins(init, k);
    }
  }

  /** Without an offer paragraph there are no dates, and the error says so. */
  lemma {:induction false} NoOfferNoDates(paragraphs: seq<string>)
    requires forall j | 0 <= j < |paragraphs| :: !IsOffer(paragraphs[j])
    ensures LastDates(paragraphs) == []
    ensures DurationOf(paragraphs) == Err(MissingDates(MissingDatesMessage))
    decreases |paragraphs|
  {
    if paragraphs != [] {
      NoOfferNoDates(paragraphs[..|paragraphs| - 1]);
    }
  }

  /** Every date token holds a '.' and no space or line break. */
  lemma DateTokensShape(paragraph: string)
    ensures forall i | 0 <= i < |DateTokens(paragraph)| ::
      '.' in DateTokens(paragraph)[i] && NoneIn(DateTokens(paragraph)[i], TokenSeparators)
  {
    var words := SplitAny(Replace(Strip(paragraph), "  ", ""), TokenSeparators);
    SplitAnyFromFree(Replace(Strip(paragraph), "  ", ""), TokenSeparators, "");
    DottedSubset(words);
  }

  lemma {:induction false} DottedSubset(words: seq<string>)
    ensures forall i | 0 <= i < |Dotted(words)| :: Dotted(words)[i] in words
    decreases |words|
  {
    if words != [] {
      DottedSubset(words[1..]);
      assert forall w | w in words[1..] :: w in words;
    }
  }

  // ---------------------------------------------------------------- an offer line

  /** A word of an offer line: some text and no whitespace. */
  predicate IsWord(w: string) {
    w != [] && forall i | 0 <= i < |w| :: !IsSpace(w[i])
  }

  /** Words joined by single spaces never hold two spaces in a row. */
  lemma {:induction false} SingleSpaced(words: seq<string>)
    requires |words| >= 1 && forall i | 0 <= i < |words| :: IsWord(words[i])
    ensures !Contains(Join(words, " "), "  ")
    ensures Trimmed(Join(words, " "))
    ensures |Join(words, " ")| >= 1 && Join(words, " ")[0] == words[0][0]
    decreases |words|
  {
    var s := Join(words, " ");
    if |words| == 1 {
      assert s == words[0];
      NoSpaceNoDouble(s);
    } else {
      var w, rest := words[0], Join(words[1..], " ");
      SingleSpaced(words[1..]);
      assert s == w + " " + rest;
      NoSpaceNoDouble(w);
      DoubleAcross(w, rest);
      var l := Join(words[1..], " ");
      assert s[|s| - 1] == l[|l| - 1];
    }
  }

  lemma {:induction false} NoSpaceNoDouble(w: string)
    requires forall i | 0 <= i < |w| :: !IsSpace(w[i])
    ensures !Contains(w, "  ")
    decreases |w|
  {
    if w != [] {
      assert !IsSpace(w[0]);
      NoSpaceNoDouble(w[1..]);
    }
  }

  /** Two spaces in a row cannot straddle a single space between a word and text starting with a non-space. */
  lemma {:induction false} DoubleAcross(w: string, rest: string)
    requires IsWord(w) && rest != [] && !IsSpace(rest[0])
    requires !Contains(w, "  ") && !Contains(rest, "  ")
    ensures !Contains(w + " " + rest, "  ")
    decreases |w|
  {
    var s := w + " " + rest;
    assert s[0] == w[0];
    if |w| == 1 {
      assert s[1..] == " " + rest;
      assert s[1..][1..] == rest;
    } else {
      assert s[1..] == w[1..] + " " + rest;
      DoubleAcross(w[1..], rest);
    }
  }

  /** Splitting single-spaced words at spaces and line breaks gives the words back. */
  lemma WordsSplit(words: seq<string>)
    requires |words| >= 1 && forall i | 0 <= i < |words| :: IsWord(words[i])
    ensures SplitAny(Join(words, " "), TokenSeparators) == words
  {
    forall i | 0 <= i < |words| ensures NoneIn(words[i], TokenSeparators) {
      assert forall k | 0 <= k < |words[i]| :: !IsSpace(words[i][k]);
    }
    SplitAnyJoin(words, ' ', TokenSeparators);
  }

  /** An offer line of single-spaced words yields its dotted words as date tokens. */
  lemma OfferLineTokens(words: seq<string>)
    requires |words| >= 1 && forall i | 0 <= i < |words| :: IsWord(words[i])
    ensures DateTokens(Join(words, " ")) == Dotted(words)
  {
    var s := Join(words, " ");
    SingleSpaced(words);
    StripTrimmed(s);
    ReplaceAbsent(s, "  ", "");
    WordsSplit(words);
  }

  lemma RenderDateWord(d: Date)
    requires ValidDate(d)
    ensures IsWord(RenderDate(d)) && '.' in RenderDate(d)
  {
    RenderDateNoSpace(d);
  }

  /** "frei ab: <x> - <y>" is an offer line whose date tokens are x and y, for dotted words x and y. */
  lemma OfferLine(x: string, y: string)
    requires IsWord(x) && IsWord(y) && '.' in x && '.' in y
    ensures IsOffer("frei ab: " + x + " - " + y)
    ensures DateTokens("frei ab: " + x + " - " + y) == [x, y]
  {
    var line := "frei ab: " + x + " - " + y;
    var words := ["frei", "ab:", x, "-", y];
    OfferLineWords(x, y);
    assert IsWord("frei") && IsWord("ab:") && IsWord("-");
    OfferLineTokens(words);
    OfferLineDotted(x, y);
    OfferLineMarker(x, y);
  }

  lemma OfferLineWords(x: string, y: string)
    ensures Join(["frei", "ab:", x, "-", y], " ") == "frei ab: " + x + " - " + y
  {
    var words := ["frei", "ab:", x, "-", y];
    assert words[1..] == ["ab:", x, "-", y];
    assert words[1..][1..] == [x, "-", y];
    JoinThree(x, "-", y, " ");
    assert Join(words[1..], " ") == "ab:" + " " + (x + " " + "-" + " " + y);
    assert Join(words, " ") == "frei" + " " + ("ab:" + " " + (x + " " + "-" + " " + y));
  }

  lemma OfferLineDotted(x: string, y: string)
    requires '.' in x && '.' in y
    ensures Dotted(["frei", "ab:", x, "-", y]) == [x, y]
  {
    var words := ["frei", "ab:", x, "-", y];
    assert '.' !in "frei" && '.' !in "ab:" && '.' !in "-";
    assert words[1..] == ["ab:", x, "-", y];
    assert words[1..][1..] == [x, "-", y];
    assert words[1..][1..][1..] == ["-", y];
    assert words[1..][1..][1..][1..] == [y];
    assert Dotted([y]) == [y] by {
      assert [y][1..] == [];
    }
    assert Dotted(["-", y]) == [y];
    assert Dotted([x, "-", y]) == [x] + [y];
    assert Dotted(["ab:", x, "-", y]) == [x, y];
  }

  lemma OfferLineMarker(x: string, y: string)
    requires IsWord(x) && IsWord(y)
    ensures IsOffer("frei ab: " + x + " - " + y)
  {
    var line := "frei ab: " + x + " - " + y;
    var words := ["frei", "ab:", x, "-", y];
    OfferLineWords(x, y);
    assert IsWord("frei") && IsWord("ab:") && IsWord("-");
    SingleSpaced(words);
    StripTrimmed(line);
    assert line[..8] == OfferMarker;
  }

  /**
   * An offer line "frei ab: <x> - <y>" among paragraphs that announce nothing
   * gives the months of the range x-y.
   */
  lemma OfferOfTokens(before: seq<string>, x: string, y: string, after: seq<string>, months: int)
    requires IsWord(x) && IsWord(y) && '.' in x && '.' in y
    requires forall j | 0 <= j < |before| :: !IsOffer(before[j])
    requires forall j | 0 <= j < |after| :: !IsOffer(after[j])
    requires RangeLength(x + "-" + y) == Ok(months)
    ensures DurationOf(before + ["frei ab: " + x + " - " + y] + after) == Ok(months)
  {
    var line := "frei ab: " + x + " - " + y;
    OfferLine(x, y);
    var ps := before + [line] + after;
    assert ps[|before|] == line;
    assert forall j | |before| < j < |ps| :: ps[j] == after[j - |before| - 1];
    LastOfferWins(ps, |before|);
    JoinTwo(x, y, "-");
  }

  /**
   * The page's "frei ab: <start> - <end>" line, with dates as strftime writes them,
   * gives the months from start to end, whatever other paragraphs surround it.
   */
  lemma OfferOfDates(before: seq<string>, a: Date, b: Date, after: seq<string>)
    requires ValidDate(a) && ValidDate(b) && a.year >= 1000 && b.year >= 1000
    requires forall j | 0 <= j < |before| :: !IsOffer(before[j])
    requires forall j | 0 <= j < |after| :: !IsOffer(after[j])
    ensures DurationOf(before + ["frei ab: " + RenderDate(a) + " - " + RenderDate(b)] + after)
            == Ok(MonthDifference(a.month, a.year, b.month, b.year))
  {
    var x, y := RenderDate(a), RenderDate(b);
    RenderDateWord(a);
    RenderDateWord(b);
    RangeLengthOfRenderedDates(a, b, "", "");
    assert x + "" + "-" + "" + y == x + "-" + y;
    OfferOfTokens(before, x, y, after, MonthDifference(a.month, a.year, b.month, b.year));
  }

  // ---------------------------------------------------------------- save_listing_text

  /**
   * The "texts" list of a JSON archive after save_listing_text as written: a file that
   * does not exist yet is created holding the text and then the text is appended again.
   */
  function SavedAsWritten(stored: Option<seq<string>>, text: string): (r: seq<string>)
    ensures stored.None? ==> r == [text, text]
    ensures stored.Some? ==> |r| == |stored.value| + 1 && r[..|stored.value|] == stored.value && r[|r| - 1] == text
  {
    var initial := if stored.None? then [text] else stored.value;
    initial + [text]
  }

  /**
   * The archive as save_listing_text describes it: created with the text, or the
   * text appended. Every save adds exactly one copy of the text, at the end.
   */
  function Saved(stored: Option<seq<string>>, text: string): (r: seq<string>)
    ensures |r| == (if stored.None? then 0 else |stored.value|) + 1 && r[|r| - 1] == text
    ensures stored.Some? ==> r[..|stored.value|] == stored.value
  {
    if stored.None? then [text] else stored.value + [text]
  }

  /** The first save to a new archive stores the text twice. */
  lemma FirstSaveDuplicates(text: string)
    ensures SavedAsWritten(None, text) == [text, text]
    ensures SavedAsWritten(None, text) != Saved(None, text)
  {
  }

  /** The save as written agrees with the described one exactly when the archive already exists. */
  lemma SavedAppendsOnce(stored: Option<seq<string>>, text: string)
    ensures SavedAsWritten(stored, text) == Saved(stored, text) <==> stored.Some?
  {
  }

  /** The JSON archives on disk: file name to its "texts" list. */
  class Archive {
    var files: map<string, seq<string>>

    constructor ()
      ensures files == map[]
    {
      files := map[];
    }

    /** save_listing_text as written. */
    method SaveListingTextAsWritten(fileName: string, text: string)
      modifies this
      ensures files == old(files)[fileName := SavedAsWritten(if fileName in old(files) then Some(old(files)[fileName]) else None, text)]
    {
      if fileName !in files {
        files := files[fileName := [text]];
      }
      files := files[fileName := files[fileName] + [text]];
    }

    /** save_listing_text as its documentation describes it. */
    method SaveListingText(fileName: string, text: string)
      modifies this
      ensures files == old(files)[fileName := Saved(if fileName in old(files) then Some(old(files)[fileName]) else None, text)]
    {
      if fileName !in files {
        files := files[fileName := [text]];
      } else {
        files := files[fileName := files[fileName] + [text]];
      }
    }
  }
}
