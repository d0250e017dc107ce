/**
 * The polling bot's main loop. Each round reads the past-listings file, takes the
 * listings the getter reports, keeps those that were not in the previous round,
 * and for each of them applies three skip rules (rental start window, minimum
 * rental length, already contacted) before fetching the listing text, sending
 * the application and recording the listing. The page fetch, the text fetch and
 * the browser are parameters: `textOf` gives the text of a listing reference,
 * `sendsAt` whether sending succeeds for the listing at a given position.
 */
module Bot {
  import opened Text
  import opened Dates
  import opened ListingGetter
  import opened Wrappers
  import ListingInfoGetter

  /** A diff entry: the listing's position among the current listings, and the listing. */
  type Entry = (nat, ListingRecord)

  /**
   * The dictionary comprehension over `enumerate(new_listings.values())`: every
   * current listing not equal to one of the previous round's, in order, with its
   * position among the current listings as key.
   */
  function Diff(current: seq<ListingRecord>, previous: seq<ListingRecord>): (d: seq<Entry>)
    ensures |d| <= |current|
    decreases |current|
  {
    if |current| == 0 then []
    else
      var last := current[|current| - 1];
      Diff(current[..|current| - 1], previous) + (if last !in previous then [(|current| - 1, last)] else [])
  }

  /** Each diff entry is a current listing, at its position, that the previous round did not have. */
  lemma {:induction false} DiffEntries(current: seq<ListingRecord>, previous: seq<ListingRecord>, j: nat)
    requires j < |Diff(current, previous)|
    ensures var e := Diff(current, previous)[j];
      e.0 < |current| && current[e.0] == e.1 && e.1 !in previous
    decreases |current|
  {
    var init := current[..|current| - 1];
    var d := Diff(init, previous);
    if j < |d| {
      DiffEntries(init, previous, j);
      assert Diff(current, previous)[j] == d[j];
    }
  }

  /** Diff entries come in increasing position order. */
  predicate Increasing(d: seq<Entry>) {
    forall i, j | 0 <= i < j < |d| :: d[i].0 < d[j].0
  }

  /**
   * The diff holds exactly the current listings absent from the previous round,
   * each once, in the order of the current listings.
   */
  lemma {:induction false} DiffExact(current: seq<ListingRecord>, previous: seq<ListingRecord>, k: nat)
    ensures (exists j | 0 <= j < |Diff(current, previous)| :: Diff(current, previous)[j].0 == k)
      <==> k < |current| && current[k] !in previous
    ensures Increasing(Diff(current, previous))
    decreases |current|
  {
    if |current| > 0 {
      var n := |current| - 1;
      var init := current[..n];
      var d := Diff(init, previous);
      DiffExact(init, previous, k);
      var full := Diff(current, previous);
      assert full == d + (if current[n] !in previous then [(n, current[n])] else []);
      forall j | 0 <= j < |d| ensures full[j] == d[j] && d[j].0 < n {
        DiffEntries(init, previous, j);
      }
      forall i, j | 0 <= i < j < |full| ensures full[i].0 < full[j].0 {
        if j >= |d| {
          assert full[j].0 == n;
        }
      }
      if j :| 0 <= j < |full| && full[j].0 == k {
        DiffEntries(current, previous, j);
      }
      if k < |current| && current[k] !in previous {
        if k < n {
          assert init[k] == current[k];
          var j :| 0 <= j < |d| && d[j].0 == k;
          assert full[j].0 == k;
        } else {
          assert full[|d|].0 == k;
        }
      }
    }
  }

  /** The diff is empty exactly when every current listing was already there in the previous round. */
  lemma DiffEmpty(current: seq<ListingRecord>, previous: seq<ListingRecord>)
    ensures Diff(current, previous) == [] <==> forall v | v in current :: v in previous
  {
    if Diff(current, previous) == [] {
      forall k | 0 <= k < |current| ensures current[k] in previous {
        DiffExact(current, previous, k);
      }
    } else {
      DiffEntries(current, previous, 0);
      assert Diff(current, previous)[0].1 in current;
    }
  }

  /** The configured rental start window: `earliest` is the configured start date, `latest` the day of the upper bound. */
  datatype Filters = Filters(earliest: Date, latest: Date, minMonths: int)

  /** A listing is skipped when it starts before the earliest allowed start or after the latest. */
  predicate OutsideWindow(start: Date, f: Filters) {
    Before(start, f.earliest) || Before(f.latest, start)
  }

  /** The length rule: a known length below the minimum. An unlimited listing (-1) is never too short. */
  predicate TooShort(months: int, minMonths: int) {
    0 <= months < minMonths
  }

  /** The line recorded for a contacted listing. */
  function Identifier(l: ListingRecord): (id: string)
    ensures |id| > 0 && id[|id| - 1] == '\n'
  {
    l.userName + ": " + l.address + "\n"
  }

  /** A listing that survives all three skip rules against the lines read at the start of the round. */
  predicate Passes(l: ListingRecord, prev: seq<string>, f: Filters) {
    !OutsideWindow(l.rentalStart, f) && !TooShort(l.rentalLengthMonths, f.minMonths) && Identifier(l) !in prev
  }

  /** The length rule never skips an unlimited listing, and skips a known length exactly when it is below the minimum. */
  lemma TooShortRule(months: int, minMonths: int)
    ensures !TooShort(-1, minMonths)
    ensures months >= 0 ==> (TooShort(months, minMonths) <==> months < minMonths)
    ensures months >= minMonths ==> !TooShort(months, minMonths)
  {
  }

  /** The diff entries that pass the skip rules, in order. */
  function Contacted(d: seq<Entry>, prev: seq<string>, f: Filters): (c: seq<Entry>)
    ensures |c| <= |d|
    ensures forall e | e in c :: e in d && Passes(e.1, prev, f)
    decreases |d|
  {
    if |d| == 0 then []
    else
      var last := d[|d| - 1];
      assert forall e | e in d[..|d| - 1] :: e in d;
      Contacted(d[..|d| - 1], prev, f) + (if Passes(last.1, prev, f) then [last] else [])
  }

  /** The contacted entries are exactly the diff entries that pass the skip rules. */
  lemma {:induction false} ContactedExact(d: seq<Entry>, prev: seq<string>, f: Filters, e: Entry)
    ensures e in Contacted(d, prev, f) <==> e in d && Passes(e.1, prev, f)
    decreases |d|
  {
    if |d| > 0 {
      var init := d[..|d| - 1];
      ContactedExact(init, prev, f, e);
      assert d == init + [d[|d| - 1]];
    }
  }

  /** Contacting works entry by entry: the contacted entries of a concatenation, in order. */
  lemma {:induction false} ContactedAppend(a: seq<Entry>, b: seq<Entry>, prev: seq<string>, f: Filters)
    ensures Contacted(a + b, prev, f) == Contacted(a, prev, f) + Contacted(b, prev, f)
    decreases |b|
  {
    if b == [] {
      assert a + b == a;
    } else {
      var init, last := b[..|b| - 1], b[|b| - 1];
      var keep := if Passes(last.1, prev, f) then [last] else [];
      assert (a + b)[..|a + b| - 1] == a + init && (a + b)[|a + b| - 1] == last;
      ContactedAppend(a, init, prev, f);
      assert Contacted(a + b, prev, f) == Contacted(a + init, prev, f) + keep;
      assert Contacted(b, prev, f) == Contacted(init, prev, f) + keep;
      assert (Contacted(a, prev, f) + Contacted(init, prev, f)) + keep
        == Contacted(a, prev, f) + (Contacted(init, prev, f) + keep);
    }
  }

  /** A single diff entry is contacted exactly when it passes the skip rules. */
  lemma ContactedOne(e: Entry, prev: seq<string>, f: Filters)
    ensures Contacted([e], prev, f) == (if Passes(e.1, prev, f) then [e] else [])
  {
    assert [e][..0] == [];
  }

  /**
   * The texts archived in the round: those of the contacted listings whose
   * application was sent, each time the text of that listing.
   */
  function SentTexts(c: seq<Entry>, textOf: string -> string, sendsAt: nat -> bool): (t: seq<string>)
    ensures |t| <= |c|
    ensures forall j | 0 <= j < |t| :: exists k | 0 <= k < |c| :: sendsAt(c[k].0) && t[j] == textOf(c[k].1.ref)
    decreases |c|
  {
    if |c| == 0 then []
    else
      var init := c[..|c| - 1];
      var last := c[|c| - 1];
      var t := SentTexts(init, textOf, sendsAt) + (if sendsAt(last.0) then [textOf(last.1.ref)] else []);
      assert forall k | 0 <= k < |init| :: init[k] == c[k];
      t
  }

  /** When every application of the round is sent, every contacted listing's text is archived, in order. */
  lemma {:induction false} SentTextsAll(c: seq<Entry>, textOf: string -> string, sendsAt: nat -> bool)
    requires forall e | e in c :: sendsAt(e.0)
    ensures |SentTexts(c, textOf, sendsAt)| == |c|
    ensures forall j | 0 <= j < |c| :: SentTexts(c, textOf, sendsAt)[j] == textOf(c[j].1.ref)
    decreases |c|
  {
    if |c| > 0 {
      var init := c[..|c| - 1];
      assert forall e | e in init :: e in c;
      SentTextsAll(init, textOf, sendsAt);
      var t := SentTexts(init, textOf, sendsAt);
      assert c[|c| - 1] in c;
      assert SentTexts(c, textOf, sendsAt) == t + [textOf(c[|c| - 1].1.ref)];
      var all := t + [textOf(c[|c| - 1].1.ref)];
      assert |t| == |init|;
      forall j | 0 <= j < |c| ensures all[j] == textOf(c[j].1.ref) {
        if j < |init| {
          assert all[j] == t[j] && init[j] == c[j];
        } else {
          assert j == |t|;
        }
      }
    }
  }

  // The past-listings file and file.readlines()

  /**
   * Reading in text mode with universal newlines: "\r\n" and a lone '\r' each
   * become '\n'.
   */
  function Translated(s: string): (t: string)
    ensures '\r' !in t
    decreases |s|
  {
    if |s| == 0 then ""
    else if s[0] == '\r' then
      if |s| >= 2 && s[1] == '\n' then "\n" + Translated(s[2..]) else "\n" + Translated(s[1..])
    else [s[0]] + Translated(s[1..])
  }

  /** Text without '\r' reads as written. */
  lemma {:induction false} TranslatedPlain(s: string)
    requires '\r' !in s
    ensures Translated(s) == s
    decreases |s|
  {
    if |s| > 0 {
      assert s[0] in s;
      assert forall c | c in s[1..] :: c in s;
      TranslatedPlain(s[1..]);
      assert Translated(s) == [s[0]] + Translated(s[1..]);
      assert [s[0]] + s[1..] == s;
    }
  }

  /** A text that does not end in '\r' is translated independently of what follows it. */
  lemma {:induction false} TranslatedAppend(s: string, t: string)
    requires |s| == 0 || s[|s| - 1] != '\r'
    ensures Translated(s + t) == Translated(s) + Translated(t)
    decreases |s|
  {
    if |s| == 0 {
      assert s + t == t;
    } else {
      var k := Consumed(s);
      TranslatedUnfoldAppend(s, t);
      assert |s[k..]| == 0 || s[k..][|s[k..]| - 1] == s[|s| - 1];
      TranslatedAppend(s[k..], t);
      TranslatedUnfoldAppend(s, []);
      assert s + [] == s && s[k..] + [] == s[k..];
      var e, rest := Emitted(s), Translated(s[k..]);
      assert e + (rest + Translated(t)) == (e + rest) + Translated(t);
    }
  }

  /** How many characters translation reads at the start of `s`: two for "\r\n", else one. */
  function Consumed(s: string): nat
    requires |s| > 0
  {
    if s[0] == '\r' && |s| >= 2 && s[1] == '\n' then 2 else 1
  }

  /** What translation writes for those characters. */
  function Emitted(s: string): string
    requires |s| > 0
  {
    if s[0] == '\r' then "\n" else [s[0]]
  }

  /** Translating `s + t` starts as translating `s` does, when `s` does not end in a lone '\r'. */
  lemma TranslatedUnfoldAppend(s: string, t: string)
    requires |s| > 0 && s[|s| - 1] != '\r'
    ensures Consumed(s) <= |s|
    ensures Translated(s + t) == Emitted(s) + Translated(s[Consumed(s)..] + t)
  {
    var st := s + t;
    assert s[0] == '\r' ==> |s| >= 2;
    assert st[0] == s[0] && (|s| >= 2 ==> st[1] == s[1]);
    assert st[Consumed(s)..] == s[Consumed(s)..] + t;
  }

  /** A text that ends in '\n' still does after translation. */
  lemma {:induction false} TranslatedTerminated(s: string)
    requires Terminated(s)
    ensures Terminated(Translated(s))
    decreases |s|
  {
    if |s| > 0 {
      if s[0] == '\r' && |s| >= 2 && s[1] == '\n' {
        TranslatedTerminated(s[2..]);
      } else if s[0] == '\r' {
        TranslatedTerminated(s[1..]);
      } else if |s| > 1 {
        TranslatedTerminated(s[1..]);
      }
    }
  }

  /** The length of the first line of `s`: up to and including the first newline, or all of `s`. */
  function LineLength(s: string): (n: nat)
    requires |s| > 0
    ensures 1 <= n <= |s|
    decreases |s|
  {
    if s[0] == '\n' || |s| == 1 then 1 else 1 + LineLength(s[1..])
  }

  /** The first line holds no newline before its end, and ends in one unless it is all of `s`. */
  lemma {:induction false} LineLengthShape(s: string)
    requires |s| > 0
    ensures forall k | 0 <= k < LineLength(s) - 1 :: s[k] != '\n'
    ensures LineLength(s) < |s| ==> s[LineLength(s) - 1] == '\n'
    decreases |s|
  {
    if s[0] != '\n' && |s| > 1 {
      LineLengthShape(s[1..]);
      assert forall k | 1 <= k < |s| :: s[k] == s[1..][k - 1];
    }
  }

  /** Splitting translated text into lines, each keeping its newline; a last line without one is kept as it is. */
  function SplitLines(s: string): seq<string>
    decreases |s|
  {
    if |s| == 0 then []
    else
      var n := LineLength(s);
      [s[..n]] + SplitLines(s[n..])
  }

  /**
   * The lines splitting gives: none empty, each holding a newline only at its
   * end, all but the last ending in one (the last too when the text does), and
   * free of '\r' when the text is.
   */
  lemma SplitLinesShape(s: string)
    ensures forall j | 0 <= j < |SplitLines(s)| :: |SplitLines(s)[j]| > 0
    ensures forall j | 0 <= j < |SplitLines(s)| :: '\n' !in SplitLines(s)[j][..|SplitLines(s)[j]| - 1]
    ensures forall j | 0 <= j < |SplitLines(s)| - 1 :: OneLine(SplitLines(s)[j])
    ensures Terminated(s) ==> forall j | 0 <= j < |SplitLines(s)| :: OneLine(SplitLines(s)[j])
    ensures '\r' !in s ==> forall j | 0 <= j < |SplitLines(s)| :: '\r' !in SplitLines(s)[j]
  {
    SplitLinesBreaks(s);
    SplitLinesEnds(s);
    SplitLinesNoReturn(s);
  }

  /** No line is empty, and each holds a newline only at its end. */
  lemma {:induction false} SplitLinesBreaks(s: string)
    ensures forall j | 0 <= j < |SplitLines(s)| :: |SplitLines(s)[j]| > 0
    ensures forall j | 0 <= j < |SplitLines(s)| :: '\n' !in SplitLines(s)[j][..|SplitLines(s)[j]| - 1]
    decreases |s|
  {
    if |s| > 0 {
      var n := LineLength(s);
      LineLengthShape(s);
      SplitLinesUnfold(s);
      SplitLinesBreaks(s[n..]);
      var first, rest := s[..n], SplitLines(s[n..]);
      assert forall j | 1 <= j < |SplitLines(s)| :: SplitLines(s)[j] == rest[j - 1];
      assert forall k | 0 <= k < n - 1 :: first[..n - 1][k] == s[k];
    }
  }

  /** Every line but the last ends in a newline, and so does the last when the text does. */
  lemma {:induction false} SplitLinesEnds(s: string)
    ensures forall j | 0 <= j < |SplitLines(s)| - 1 :: EndsLine(SplitLines(s)[j])
    ensures Terminated(s) ==> forall j | 0 <= j < |SplitLines(s)| :: EndsLine(SplitLines(s)[j])
    decreases |s|
  {
    if |s| > 0 {
      var n := LineLength(s);
      LineLengthShape(s);
      SplitLinesUnfold(s);
      SplitLinesEnds(s[n..]);
      var rest := SplitLines(s[n..]);
      assert forall j | 1 <= j < |SplitLines(s)| :: SplitLines(s)[j] == rest[j - 1];
      if n < |s| {
        assert Terminated(s) ==> s[n..][|s[n..]| - 1] == s[|s| - 1];
      } else {
        assert rest == [];
      }
    }
  }

  /** A text without '\r' splits into lines without it. */
  lemma {:induction false} SplitLinesNoReturn(s: string)
    ensures '\r' !in s ==> forall j | 0 <= j < |SplitLines(s)| :: '\r' !in SplitLines(s)[j]
    decreases |s|
  {
    if |s| > 0 && '\r' !in s {
      var n := LineLength(s);
      SplitLinesUnfold(s);
      assert forall k | 0 <= k < |s[n..]| :: s[n..][k] == s[n + k];
      SplitLinesNoReturn(s[n..]);
      var first, rest := s[..n], SplitLines(s[n..]);
      assert forall j | 1 <= j < |SplitLines(s)| :: SplitLines(s)[j] == rest[j - 1];
      assert '\r' !in first;
    }
  }

  /** A non-empty text whose last character is a newline. */
  predicate EndsLine(line: string) {
    |line| > 0 && line[|line| - 1] == '\n'
  }

  /** readlines() on a file opened in text mode: universal newlines, then the lines. */
  function ReadLines(s: string): (r: seq<string>)
    ensures forall j | 0 <= j < |r| :: '\r' !in r[j]
    ensures forall j | 0 <= j < |r| - 1 :: OneLine(r[j])
    ensures Terminated(s) ==> forall j | 0 <= j < |r| :: OneLine(r[j])
  {
    assert Terminated(s) ==> Terminated(Translated(s)) by {
      if Terminated(s) {
        TranslatedTerminated(s);
      }
    }
    SplitLinesShape(Translated(s));
    SplitLines(Translated(s))
  }

  /** A file that is empty or ends in a newline. */
  predicate Terminated(s: string) {
    |s| == 0 || s[|s| - 1] == '\n'
  }

  /** A single line: it ends in its only newline. */
  predicate OneLine(line: string) {
    |line| > 0 && line[|line| - 1] == '\n' && '\n' !in line[..|line| - 1]
  }

  lemma {:induction false} LineLengthOfLine(line: string)
    requires OneLine(line)
    ensures LineLength(line) == |line|
    decreases |line|
  {
    if line[0] != '\n' && |line| > 1 {
      assert line[1..][..|line| - 2] == line[1..|line| - 1];
      LineLengthOfLine(line[1..]);
    }
  }

  lemma {:induction false} LineLengthPrefix(s: string, t: string)
    requires '\n' in s
    ensures LineLength(s + t) == LineLength(s)
    decreases |s|
  {
    if s[0] != '\n' {
      assert s[1..] + t == (s + t)[1..];
      LineLengthPrefix(s[1..], t);
    }
  }

  /** A single line splits into itself. */
  lemma SplitOneLine(line: string)
    requires OneLine(line)
    ensures SplitLines(line) == [line]
  {
    LineLengthOfLine(line);
    assert line[..|line|] == line;
    assert line[|line|..] == [];
  }

  /** Appending one line to a terminated text adds exactly that line to its lines. */
  lemma {:induction false} SplitLinesAppend(s: string, line: string)
    requires Terminated(s) && OneLine(line)
    ensures SplitLines(s + line) == SplitLines(s) + [line]
    decreases |s|
  {
    if |s| == 0 {
      assert s + line == line;
      SplitOneLine(line);
    } else {
      assert s[|s| - 1] in s;
      LineLengthPrefix(s, line);
      var n := LineLength(s);
      SliceAppend(s, line, n);
      assert Terminated(s[n..]);
      SplitLinesAppend(s[n..], line);
      SplitLinesUnfold(s);
      SplitLinesUnfold(s + line);
      var first, rest := s[..n], SplitLines(s[n..]);
      assert [first] + (rest + [line]) == ([first] + rest) + [line];
    }
  }

  /** A text that ends in a newline splits apart from whatever follows it. */
  lemma {:induction false} SplitLinesConcat(s: string, t: string)
    requires Terminated(s)
    ensures SplitLines(s + t) == SplitLines(s) + SplitLines(t)
    decreases |s|
  {
    if |s| == 0 {
      assert s + t == t;
    } else {
      var n := LineLength(s);
      SplitLinesFirst(s, t);
      SplitLinesConcat(s[n..], t);
      SplitLinesUnfold(s);
      var first, rest := s[..n], SplitLines(s[n..]);
      assert [first] + (rest + SplitLines(t)) == ([first] + rest) + SplitLines(t);
    }
  }

  /** The first line of a terminated text stays the first line whatever follows it. */
  lemma SplitLinesFirst(s: string, t: string)
    requires |s| > 0 && Terminated(s)
    ensures LineLength(s) <= |s| && Terminated(s[LineLength(s)..])
    ensures SplitLines(s + t) == [s[..LineLength(s)]] + SplitLines(s[LineLength(s)..] + t)
  {
    assert s[|s| - 1] in s;
    LineLengthPrefix(s, t);
    var n := LineLength(s);
    SliceAppend(s, t, n);
    assert n < |s| ==> s[n..][|s[n..]| - 1] == s[|s| - 1];
    SplitLinesUnfold(s + t);
  }

  /** A non-empty text splits into its first line and the lines of the rest. */
  lemma SplitLinesUnfold(s: string)
    requires |s| > 0
    ensures SplitLines(s) == [s[..LineLength(s)]] + SplitLines(s[LineLength(s)..])
  {
  }

  lemma SliceAppend<T>(s: seq<T>, t: seq<T>, n: nat)
    requires n <= |s|
    ensures (s + t)[..n] == s[..n] && (s + t)[n..] == s[n..] + t
  {
  }

  /** Splitting loses nothing: the lines put back together give the text. */
  lemma {:induction false} SplitLinesJoin(s: string)
    ensures Join(SplitLines(s), "") == s
    decreases |s|
  {
    if |s| > 0 {
      var n := LineLength(s);
      SplitLinesJoin(s[n..]);
      SplitLinesUnfold(s);
      ConcatAppend([s[..n]], SplitLines(s[n..]));
      assert Join([s[..n]], "") == s[..n];
      assert s[..n] + s[n..] == s;
    }
  }

  /** Appending whole lines to a terminated text adds exactly those lines to its lines. */
  lemma {:induction false} SplitLinesAppendAll(s: string, lines: seq<string>)
    requires Terminated(s)
    requires forall j | 0 <= j < |lines| :: OneLine(lines[j])
    ensures SplitLines(s + Join(lines, "")) == SplitLines(s) + lines
    ensures Terminated(s + Join(lines, ""))
    decreases |lines|
  {
    if |lines| == 0 {
      assert s + Join(lines, "") == s;
    } else {
      var init := lines[..|lines| - 1];
      var x := lines[|lines| - 1];
      assert forall j | 0 <= j < |init| :: init[j] == lines[j];
      SplitLinesAppendAll(s, init);
      SplitLinesAppend(s + Join(init, ""), x);
      FileLast(s, lines, SplitLines(s));
    }
  }

  /** readlines() loses nothing but the carriage returns: its lines put back together give the translated file. */
  lemma ReadLinesJoin(s: string)
    ensures Join(ReadLines(s), "") == Translated(s)
    ensures '\r' !in s ==> Join(ReadLines(s), "") == s
  {
    SplitLinesJoin(Translated(s));
    if '\r' !in s {
      TranslatedPlain(s);
    }
  }

  /**
   * Whatever is appended to a file that ends in a newline, readlines() returns
   * the file's old lines followed by the lines of the appended text.
   */
  lemma ReadLinesConcat(s: string, t: string)
    requires Terminated(s)
    ensures ReadLines(s + t) == ReadLines(s) + ReadLines(t)
  {
    TranslatedAppend(s, t);
    TranslatedTerminated(s);
    SplitLinesConcat(Translated(s), Translated(t));
  }

  /**
   * Appending whole lines without '\r' to a file that ends in a newline adds
   * exactly those lines to what readlines() returns.
   */
  lemma ReadLinesAppendAll(s: string, lines: seq<string>)
    requires Terminated(s)
    requires forall j | 0 <= j < |lines| :: OneLine(lines[j]) && '\r' !in lines[j]
    ensures ReadLines(s + Join(lines, "")) == ReadLines(s) + lines
    ensures Terminated(s + Join(lines, ""))
  {
    var joined := Join(lines, "");
    JoinFree(lines, "", '\r');
    TranslatedPlain(joined);
    TranslatedAppend(s, joined);
    TranslatedTerminated(s);
    SplitLinesAppendAll(Translated(s), lines);
    SplitLinesAppendAll(s, lines);
  }

  /** Appending one line without '\r' to a file that ends in a newline adds exactly that line to what readlines() returns. */
  lemma ReadLinesAppend(s: string, line: string)
    requires Terminated(s) && OneLine(line) && '\r' !in line
    ensures ReadLines(s + line) == ReadLines(s) + [line]
  {
    JoinOne(line);
    ReadLinesAppendAll(s, [line]);
  }

  lemma JoinOne(line: string)
    ensures Join([line], "") == line
  {
  }

  /**
   * A recorded identifier whose user name holds a '\r' is read back as two lines,
   * neither of them the identifier: the listing is contacted again in the next round.
   */
  lemma CarriageReturnSplitsRecord(l: ListingRecord)
    requires l.userName == "a\rb" && l.address == "c"
    ensures ReadLines(Identifier(l)) == ["a\n", "b: c\n"]
    ensures Identifier(l) !in ReadLines(Identifier(l))
  {
    assert Identifier(l) == "a\rb: c\n";
    TranslatedExample();
    SplitExample();
  }

  lemma TranslatedExample()
    ensures Translated("a\rb: c\n") == "a\nb: c\n"
  {
    var id := "a\rb: c\n";
    var rest := "b: c\n";
    assert id[1..] == "\rb: c\n" && id[1..][1..] == rest;
    TranslatedPlain(rest);
    assert Translated(id[1..]) == "\n" + rest;
    assert Translated(id) == "a" + ("\n" + rest);
  }

  lemma SplitExample()
    ensures SplitLines("a\nb: c\n") == ["a\n", "b: c\n"]
  {
    var t := "a\nb: c\n";
    var rest := "b: c\n";
    assert t[1..] == "\nb: c\n";
    assert LineLength(t) == 2;
    assert t[..2] == "a\n" && t[2..] == rest;
    LineLengthOfLine(rest);
    assert rest[..5] == rest && rest[5..] == "";
  }

  /** Concatenating one more line puts it at the end. */
  lemma JoinLast(lines: seq<string>, x: string)
    ensures Join(lines + [x], "") == Join(lines, "") + x
  {
    ConcatAppend(lines, [x]);
  }

  lemma FileLast(s: string, lines: seq<string>, a: seq<string>)
    requires |lines| > 0
    ensures s + Join(lines, "") == (s + Join(lines[..|lines| - 1], "")) + lines[|lines| - 1]
    ensures (a + lines[..|lines| - 1]) + [lines[|lines| - 1]] == a + lines
  {
    var init := lines[..|lines| - 1];
    var x := lines[|lines| - 1];
    AppendLast(a, lines);
    JoinLast(init, x);
    Associative(s, Join(init, ""), x);
  }

  lemma AppendLast<T>(a: seq<T>, s: seq<T>)
    requires |s| > 0
    ensures s == s[..|s| - 1] + [s[|s| - 1]]
    ensures (a + s[..|s| - 1]) + [s[|s| - 1]] == a + s
  {
    assert s == s[..|s| - 1] + [s[|s| - 1]];
  }

  lemma Associative<T>(a: seq<T>, b: seq<T>, c: seq<T>)
    ensures a + (b + c) == (a + b) + c
  {
  }

  /** A listing whose name and address hold no line break is recorded on exactly one line without '\r'. */
  lemma IdentifierOneLine(l: ListingRecord)
    requires Unbroken(l)
    ensures OneLine(Identifier(l)) && '\r' !in Identifier(l)
  {
    var id := Identifier(l);
    assert id[..|id| - 1] == l.userName + ": " + l.address;
  }

  /** Neither the user name nor the address holds a '\n' or a '\r'. */
  predicate Unbroken(l: ListingRecord) {
    '\n' !in l.userName && '\n' !in l.address && '\r' !in l.userName && '\r' !in l.address
  }

  /** The record of contacted listings as the next round reads it back. */
  function Lines(c: seq<Entry>): seq<string>
    decreases |c|
  {
    if |c| == 0 then [] else Lines(c[..|c| - 1]) + [Identifier(c[|c| - 1].1)]
  }

  /** The identifiers of listings without line breaks are whole lines without '\r'. */
  lemma {:induction false} LinesOneLine(c: seq<Entry>)
    requires forall j | 0 <= j < |c| :: Unbroken(c[j].1)
    ensures forall j | 0 <= j < |Lines(c)| :: OneLine(Lines(c)[j]) && '\r' !in Lines(c)[j]
    decreases |c|
  {
    if |c| > 0 {
      var init := c[..|c| - 1];
      assert forall j | 0 <= j < |init| :: init[j] == c[j];
      LinesOneLine(init);
      IdentifierOneLine(c[|c| - 1].1);
    }
  }

  lemma {:induction false} LinesHold(c: seq<Entry>, e: Entry)
    requires e in c
    ensures Identifier(e.1) in Lines(c)
    decreases |c|
  {
    if e != c[|c| - 1] {
      assert e in c[..|c| - 1];
      LinesHold(c[..|c| - 1], e);
    }
  }

  /**
   * A listing contacted in one round is skipped by the identifier rule in every
   * later round, whatever its position then and whatever the rounds in between
   * appended to the file (`more`), provided the file ended in a newline and no
   * identifier of this round holds a line break.
   */
  lemma NeverContactedTwice(file: string, d: seq<Entry>, f: Filters, e: Entry, more: string, later: ListingRecord, g: Filters)
    requires Terminated(file)
    requires forall x | x in d :: Unbroken(x.1)
    requires e in Contacted(d, ReadLines(file), f)
    requires later.userName == e.1.userName && later.address == e.1.address
    ensures !Passes(later, ReadLines(file + Join(Lines(Contacted(d, ReadLines(file), f)), "") + more), g)
  {
    var c := Contacted(d, ReadLines(file), f);
    forall j | 0 <= j < |c| ensures Unbroken(c[j].1) {
      assert c[j] in c;
    }
    LinesOneLine(c);
    ReadLinesAppendAll(file, Lines(c));
    ReadLinesConcat(file + Join(Lines(c), ""), more);
    LinesHold(c, e);
  }

  /**
   * Within one round the identifier rule reads only the lines of earlier rounds:
   * two new listings with the same name and address that pass the other rules are
   * both contacted.
   */
  lemma SameRoundNotDeduplicated(d: seq<Entry>, prev: seq<string>, f: Filters, i: nat, j: nat)
    requires i < j < |d|
    requires Identifier(d[i].1) == Identifier(d[j].1)
    requires Passes(d[i].1, prev, f) && Passes(d[j].1, prev, f)
    ensures d[i] in Contacted(d, prev, f) && d[j] in Contacted(d, prev, f)
  {
    ContactedExact(d, prev, f, d[i]);
    ContactedExact(d, prev, f, d[j]);
  }

  // The listing_texts.json archive

  /** The archive after saving each text in turn with save_listing_text as written. */
  function Archived(stored: Option<seq<string>>, texts: seq<string>): Option<seq<string>>
    decreases |texts|
  {
    if texts == [] then stored
    else Some(ListingInfoGetter.SavedAsWritten(Archived(stored, texts[..|texts| - 1]), texts[|texts| - 1]))
  }

  /**
   * Saving a round's texts appends them to an existing archive; without one, the
   * first text is stored twice and the others once.
   */
  lemma {:induction false} ArchivedContents(stored: Option<seq<string>>, texts: seq<string>)
    ensures stored.Some? ==> Archived(stored, texts) == Some(stored.value + texts)
    ensures stored.None? && texts != [] ==> Archived(stored, texts) == Some([texts[0]] + texts)
    ensures stored.None? && texts == [] ==> Archived(stored, texts) == None
    decreases |texts|
  {
    if texts == [] {
      assert stored.Some? ==> stored.value + texts == stored.value;
    } else {
      var init := texts[..|texts| - 1];
      var x := texts[|texts| - 1];
      ArchivedContents(stored, init);
      assert init + [x] == texts;
      var before := Archived(stored, init);
      assert Archived(stored, texts) == Some(ListingInfoGetter.SavedAsWritten(before, x));
      if stored.Some? {
        assert ListingInfoGetter.SavedAsWritten(before, x) == (stored.value + init) + [x];
        Associative(stored.value, init, [x]);
      } else if init == [] {
        assert ListingInfoGetter.SavedAsWritten(before, x) == [x] + [x];
      } else {
        assert init[0] == texts[0];
        assert ListingInfoGetter.SavedAsWritten(before, x) == ([texts[0]] + init) + [x];
        Associative([texts[0]], init, [x]);
      }
    }
  }

  /** Before any diff entry nothing has been added to the record or to the archive. */
  lemma RoundStart(prev: seq<string>, f: Filters, textOf: string -> string, sendsAt: nat -> bool, file: string, saved: Option<seq<string>>)
    ensures file + Join(Lines(Contacted([], prev, f)), "") == file
    ensures Archived(saved, SentTexts(Contacted([], prev, f), textOf, sendsAt)) == saved
  {
    assert file + "" == file;
  }

  /** One more diff entry is contacted exactly when it passes the skip rules. */
  lemma ContactedStep(d: seq<Entry>, i: nat, prev: seq<string>, f: Filters)
    requires i < |d|
    ensures Contacted(d[..i + 1], prev, f)
      == Contacted(d[..i], prev, f) + (if Passes(d[i].1, prev, f) then [d[i]] else [])
  {
    assert d[..i + 1][..i] == d[..i];
  }

  /** What one more contacted listing adds to the record. */
  lemma RecordStep(c: seq<Entry>, e: Entry, file: string)
    ensures file + Join(Lines(c + [e]), "") == (file + Join(Lines(c), "")) + Identifier(e.1)
  {
    assert (c + [e])[..|c|] == c;
    assert Lines(c + [e]) == Lines(c) + [Identifier(e.1)];
    JoinLast(Lines(c), Identifier(e.1));
  }

  /** What one more contacted listing adds to the archive: its text, saved as written, when it was sent. */
  lemma ArchiveStep(c: seq<Entry>, e: Entry, textOf: string -> string, sendsAt: nat -> bool, saved: Option<seq<string>>)
    ensures Archived(saved, SentTexts(c + [e], textOf, sendsAt))
      == if sendsAt(e.0) then Some(ListingInfoGetter.SavedAsWritten(Archived(saved, SentTexts(c, textOf, sendsAt)), textOf(e.1.ref)))
         else Archived(saved, SentTexts(c, textOf, sendsAt))
  {
    assert (c + [e])[..|c|] == c;
    var t := SentTexts(c, textOf, sendsAt);
    if sendsAt(e.0) {
      assert SentTexts(c + [e], textOf, sendsAt) == t + [textOf(e.1.ref)];
      assert (t + [textOf(e.1.ref)])[..|t|] == t;
    } else {
      assert SentTexts(c + [e], textOf, sendsAt) == t;
    }
  }

  /** The bot's state between rounds. */
  class Runner {
    /** old_listings: the listings of the last round that found something new. */
    var oldListings: seq<ListingRecord>
    /** past_listings.txt. */
    var pastFile: string
    /** The "texts" list of listing_texts.json, or None while the file does not exist. */
    var saved: Option<seq<string>>

    constructor (pastFile: string, saved: Option<seq<string>>)
      ensures oldListings == [] && this.pastFile == pastFile && this.saved == saved
    {
      oldListings := [];
      this.pastFile := pastFile;
      this.saved := saved;
    }

    /**
     * The body of the loop over the diff: the three skip rules, then the text, the
     * application, the archive and the record. A listing that passes is recorded
     * whether or not its application was sent.
     */
    method Visit(e: Entry, prev: seq<string>, f: Filters, textOf: string -> string, sendsAt: nat -> bool)
      modifies this
      ensures oldListings == old(oldListings)
      ensures Passes(e.1, prev, f) ==>
        pastFile == old(pastFile) + Identifier(e.1)
        && saved == (if sendsAt(e.0) then Some(ListingInfoGetter.SavedAsWritten(old(saved), textOf(e.1.ref))) else old(saved))
      ensures !Passes(e.1, prev, f) ==> pastFile == old(pastFile) && saved == old(saved)
    {
      var listing := e.1;
      if OutsideWindow(listing.rentalStart, f) {
        return;
      }
      if TooShort(listing.rentalLengthMonths, f.minMonths) {
        return;
      }
      var identifier := Identifier(listing);
      if identifier in prev {
        return;
      }
      var text := textOf(listing.ref);
      var sent := sendsAt(e.0);
      if sent {
        saved := Some(ListingInfoGetter.SavedAsWritten(saved, text));
      }
      pastFile := pastFile + identifier;
    }

    /**
     * One iteration of the `while True` loop, up to the sleep. The lines of the
     * file are read once, at the start; every listing that passes the skip rules
     * has its identifier appended, whether or not its application was sent, and
     * its text archived only when it was.
     */
    method Round(current: seq<ListingRecord>, f: Filters, textOf: string -> string, sendsAt: nat -> bool)
      returns (d: seq<Entry>)
      modifies this
      ensures d == Diff(current, old(oldListings))
      ensures pastFile == old(pastFile) + Join(Lines(Contacted(d, ReadLines(old(pastFile)), f)), "")
      ensures saved == Archived(old(saved), SentTexts(Contacted(d, ReadLines(old(pastFile)), f), textOf, sendsAt))
      ensures oldListings == if d == [] then old(oldListings) else current
    {
      var prev := ReadLines(pastFile);
      d := Diff(current, oldListings);
      RoundStart(prev, f, textOf, sendsAt, pastFile, saved);
      if |d| == 0 {
        return;
      }
      assert d[..0] == [];
      for i := 0 to |d|
        invariant pastFile == old(pastFile) + Join(Lines(Contacted(d[..i], prev, f)), "")
        invariant saved == Archived(old(saved), SentTexts(Contacted(d[..i], prev, f), textOf, sendsAt))
        invariant oldListings == old(oldListings)
      {
        var c := Contacted(d[..i], prev, f);
        ContactedStep(d, i, prev, f);
        if Passes(d[i].1, prev, f) {
          RecordStep(c, d[i], old(pastFile));
          ArchiveStep(c, d[i], textOf, sendsAt, old(saved));
          assert Contacted(d[..i + 1], prev, f) == c + [d[i]];
        } else {
          assert Contacted(d[..i + 1], prev, f) == c;
        }
        Visit(d[i], prev, f, textOf, sendsAt);
      }
      assert d[..|d|] == d;
      oldListings := current;
    }
  }

  /**
   * When the file ends in a newline and no identifier holds a line break, the
   * next round's lines are the old lines and the new identifiers.
   */
  lemma RoundRecord(file: string, current: seq<ListingRecord>, previous: seq<ListingRecord>, f: Filters)
    requires Terminated(file)
    requires forall l | l in current :: Unbroken(l)
    ensures ReadLines(file + Join(Lines(Contacted(Diff(current, previous), ReadLines(file), f)), ""))
      == ReadLines(file) + Lines(Contacted(Diff(current, previous), ReadLines(file), f))
  {
    var d := Diff(current, previous);
    var c := Contacted(d, ReadLines(file), f);
    forall j | 0 <= j < |c| ensures Unbroken(c[j].1) {
      assert c[j] in c;
      var k :| 0 <= k < |d| && d[k] == c[j];
      DiffEntries(current, previous, k);
      assert c[j].1 == current[d[k].0];
    }
    LinesOneLine(c);
    ReadLinesAppendAll(file, Lines(c));
  }

  /** After a round every current listing is among the remembered ones, so an unchanged page gives an empty diff next time. */
  lemma RoundRemembers(current: seq<ListingRecord>, previous: seq<ListingRecord>)
    ensures var kept := if Diff(current, previous) == [] then previous else current;
      Diff(current, kept) == []
  {
    DiffEmpty(current, previous);
    DiffEmpty(current, current);
  }
}
