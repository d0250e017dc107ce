/**
 * The search-result scraper: from the parsed elements of one results page it
 * extracts, per listing, the link, the advertiser's name, the flat type and
 * address, the rental period in months and its start date, and whether the ad
 * comes from a verified company; then it assembles the records of the listings
 * worth contacting, keyed by their position on the page.
 */
module ListingGetter {
  import opened Wrappers
  import opened Text
  import opened Dates

  /**
   * The texts of one listing element that the getter reads: the first link's
   * target, the advertiser span, the info span ("2er WG | Mitte | Berlin"), the
   * period cell ("01.05.2024 - 01.08.2024") and the verified badge when there is one.
   */
  datatype ListingElement = ListingElement(
    href: string,
    userName: string,
    infoText: string,
    periodText: string,
    verifiedLabel: Option<string>)

  datatype RentalInfo = RentalInfo(address: string, wgType: string)

  /** One entry of all_infos. */
  datatype ListingRecord = ListingRecord(
    ref: string,
    userName: string,
    address: string,
    wgType: string,
    rentalLengthMonths: int,
    rentalStart: Date)

  /** The exceptions the getter lets through. */
  datatype ListingError =
    | IndexError
    | BadRange(rangeError: RangeError)
    | BadDate(dateError: DateError)
    | LengthMismatch(message: string)

  const InfoSeparators: set<char> := {'|', '\n'}
  const PeriodSeparators: set<char> := {'-', '\n'}
  const LengthMismatchMessage := "Not all lists have the same length!"

  // ---------------------------------------------------------------- splitting a cell

  /** The pieces that are not empty, in order. */
  function NonBlank(parts: seq<string>): (r: seq<string>)
    ensures |r| <= |parts|
    ensures forall i | 0 <= i < |r| :: r[i] != ""
  {
    if parts == [] then []
    else (if parts[0] != "" then [parts[0]] else []) + NonBlank(parts[1..])
  }

  /** `[p.strip() for p in re.split(seps, text) if p.strip() != ""]`: the stripped, non-blank pieces of a cell. */
  function CleanParts(text: string, seps: set<char>): seq<string> {
    NonBlank(Strips(SplitAny(text, seps)))
  }

  /** Dropping empty pieces keeps only pieces of the input. */
  lemma {:induction false} NonBlankSubset(parts: seq<string>)
    ensures forall i | 0 <= i < |NonBlank(parts)| :: NonBlank(parts)[i] in parts
  {
    if parts != [] {
      NonBlankSubset(parts[1..]);
      assert forall p | p in parts[1..] :: p in parts;
    }
  }

  /** Dropping empty pieces works piece by piece: the kept pieces of a concatenation, in order. */
  lemma {:induction false} NonBlankAppend(a: seq<string>, b: seq<string>)
    ensures NonBlank(a + b) == NonBlank(a) + NonBlank(b)
    decreases |a|
  {
    if a == [] {
      assert a + b == b;
    } else {
      var keep := if a[0] != "" then [a[0]] else [];
      assert (a + b)[0] == a[0] && (a + b)[1..] == a[1..] + b;
      NonBlankAppend(a[1..], b);
      assert keep + (NonBlank(a[1..]) + NonBlank(b)) == (keep + NonBlank(a[1..])) + NonBlank(b);
    }
  }

  /** A single piece is kept exactly when it is not empty. */
  lemma NonBlankOne(p: string)
    ensures NonBlank([p]) == (if p != "" then [p] else [])
  {
    assert [p][1..] == [];
  }

  /** Every piece that is not empty is kept. */
  lemma {:induction false} NonBlankKeeps(parts: seq<string>)
    ensures forall p | p in parts && p != "" :: p in NonBlank(parts)
  {
    if parts != [] {
      NonBlankKeeps(parts[1..]);
      assert forall p | p in parts && p != parts[0] :: p in parts[1..];
    }
  }

  /** No cleaned piece holds a separator. */
  lemma CleanPartsFree(text: string, seps: set<char>)
    ensures forall i | 0 <= i < |CleanParts(text, seps)| :: NoneIn(CleanParts(text, seps)[i], seps)
  {
    var split := SplitAny(text, seps);
    SplitAnyFromFree(text, seps, "");
    forall i | 0 <= i < |split| ensures NoneIn(Strips(split)[i], seps) {
      StripFree(split[i], seps);
    }
    NonBlankSubset(Strips(split));
  }

  /** Dropping empty pieces changes nothing when there are none. */
  lemma {:induction false} NonBlankAll(parts: seq<string>)
    requires forall i | 0 <= i < |parts| :: parts[i] != ""
    ensures NonBlank(parts) == parts
  {
    if parts != [] {
      NonBlankAll(parts[1..]);
    }
  }

  /** Pieces joined with a separator are split apart again and stripped. */
  lemma CleanPartsOfJoin(raw: seq<string>, c: char, seps: set<char>)
    requires c in seps && |raw| >= 1
    requires forall i | 0 <= i < |raw| :: NoneIn(raw[i], seps) && Strip(raw[i]) != ""
    ensures CleanParts(Join(raw, [c]), seps) == Strips(raw)
  {
    SplitAnyJoin(raw, c, seps);
    NonBlankAll(Strips(raw));
  }

  // ---------------------------------------------------------------- rental_infos

  /** The flat type and address of one info cell; IndexError when the cell has no text. */
  function ParseRentalInfo(text: string): (r: Result<RentalInfo, ListingError>)
    ensures r.Err? <==> CleanParts(text, InfoSeparators) == []
    ensures r.Err? ==> r.error == IndexError
  {
    var parts := CleanParts(text, InfoSeparators);
    if |parts| == 0 then Err(IndexError)
    else Ok(RentalInfo(Join(Reverse(parts)[..|parts| - 1], ", "), parts[0]))
  }

  /** `parts[::-1][:-1]` is the pieces after the first, last one first. */
  lemma ReverseDropLast(parts: seq<string>)
    requires |parts| >= 1
    ensures Reverse(parts)[..|parts| - 1] == Reverse(parts[1..])
  {
  }

  lemma RentalInfoOfParts(text: string, parts: seq<string>)
    requires CleanParts(text, InfoSeparators) == parts && |parts| >= 1
    ensures ParseRentalInfo(text) == Ok(RentalInfo(Join(Reverse(parts[1..]), ", "), parts[0]))
  {
    ReverseDropLast(parts);
  }

  /**
   * A cell of pieces separated by '|', each with text and no separator inside,
   * gives the first piece as the flat type and the others, last first, joined by
   * ", " as the address.
   */
  lemma RentalInfoOfPieces(raw: seq<string>)
    requires |raw| >= 1
    requires forall i | 0 <= i < |raw| :: NoneIn(raw[i], InfoSeparators) && Strip(raw[i]) != ""
    ensures ParseRentalInfo(Join(raw, "|")) == Ok(RentalInfo(Join(Reverse(Strips(raw)[1..]), ", "), Strip(raw[0])))
  {
    CleanPartsOfJoin(raw, '|', InfoSeparators);
    RentalInfoOfParts(Join(raw, "|"), Strips(raw));
  }

  /** "type | district | city" gives the address "city, district". */
  lemma RentalInfoOfThree(wgType: string, district: string, city: string)
    requires NoneIn(wgType, InfoSeparators) && NoneIn(district, InfoSeparators) && NoneIn(city, InfoSeparators)
    requires Trimmed(wgType) && Trimmed(district) && Trimmed(city)
    requires wgType != "" && district != "" && city != ""
    ensures ParseRentalInfo(wgType + "|" + district + "|" + city) == Ok(RentalInfo(city + ", " + district, wgType))
  {
    var raw := [wgType, district, city];
    var text := wgType + "|" + district + "|" + city;
    StripTrimmed(wgType);
    StripTrimmed(district);
    StripTrimmed(city);
    assert Strips(raw) == raw;
    JoinThree(wgType, district, city, "|");
    CleanPartsOfJoin(raw, '|', InfoSeparators);
    RentalInfoOfParts(text, raw);
    assert Reverse(raw[1..]) == [city, district];
    JoinTwo(city, district, ", ");
  }

  // ---------------------------------------------------------------- rental_durations, rental_start_dates

  /** The stripped, non-blank pieces of a period cell split at '-' or a line break. */
  function PeriodParts(text: string): seq<string> {
    CleanParts(text, PeriodSeparators)
  }

  /**
   * The months a period cell spans: its pieces, re-joined with "-", through the
   * range computation. A cell with one date, or with more than two pieces, is an
   * open-ended rental: -1.
   */
  function RentalDuration(text: string): (r: Result<int, RangeError>)
    ensures |PeriodParts(text)| != 2 ==> r == Ok(-1)
  {
    if |PeriodParts(text)| != 2 then
      JoinedPartsUnlimited(text);
      RangeLength(Join(PeriodParts(text), "-"))
    else RangeLength(Join(PeriodParts(text), "-"))
  }

  /** The start date of a period cell: its first piece through strptime; IndexError when the cell has no text. */
  function RentalStart(text: string): (r: Result<Date, ListingError>)
    ensures r.Ok? ==> ValidDate(r.value)
    ensures r.Err? && r.error == IndexError <==> PeriodParts(text) == []
  {
    var parts := PeriodParts(text);
    if |parts| == 0 then Err(IndexError)
    else
      match ParseDate(parts[0])
      case Ok(d) => Ok(d)
      case Err(e) => Err(BadDate(e))
  }

  /** Pieces without a dash, other than two of them, re-join into a text the range computation reads as -1. */
  lemma JoinedPartsUnlimited(text: string)
    requires |PeriodParts(text)| != 2
    ensures RangeLength(Join(PeriodParts(text), "-")) == Ok(-1)
  {
    var parts := PeriodParts(text);
    if |parts| == 0 {
      CountCharAbsent("", '-');
      RangeLengthUnlimited("");
    } else {
      CleanPartsFree(text, PeriodSeparators);
      assert FreeOf(parts, '-') by {
        forall i | 0 <= i < |parts| ensures '-' !in parts[i] {
          assert NoneIn(parts[i], PeriodSeparators);
          assert forall k | 0 <= k < |parts[i]| :: parts[i][k] != '-';
        }
      }
      SplitJoin(parts, "-");
    }
  }

  /** Two pieces around a dash, with blanks beside it, are the cell's two pieces. */
  lemma PeriodPartsOfTwo(x: string, y: string, before: string, after: string)
    requires x != "" && y != "" && Trimmed(x) && Trimmed(y)
    requires NoneIn(x, PeriodSeparators) && NoneIn(y, PeriodSeparators)
    requires AllSpaces(before) && AllSpaces(after)
    requires NoneIn(before, PeriodSeparators) && NoneIn(after, PeriodSeparators)
    ensures PeriodParts(x + before + "-" + after + y) == [x, y]
  {
    var left, right := x + before, after + y;
    assert NoneIn(left, PeriodSeparators);
    assert NoneIn(right, PeriodSeparators);
    StripPadded("", x, before);
    StripPadded(after, y, "");
    assert "" + x + before == left && after + y + "" == right;
    StripsTwo(left, right);
    JoinTwo(left, right, "-");
    assert x + before + "-" + after + y == Join([left, right], "-");
    CleanPartsOfJoin([left, right], '-', PeriodSeparators);
  }

  lemma RentalDurationOfTwo(text: string, x: string, y: string)
    requires PeriodParts(text) == [x, y]
    ensures RentalDuration(text) == RangeLength(x + "-" + y)
  {
    JoinTwo(x, y, "-");
  }

  lemma RentalStartOfFirst(text: string, parts: seq<string>, d: Date)
    requires PeriodParts(text) == parts && |parts| >= 1 && ParseDate(parts[0]) == Ok(d)
    ensures RentalStart(text) == Ok(d)
  {
  }

  /** The month count of a two-piece cell, from the month and year fields of its pieces. */
  lemma RentalDurationOfTexts(x: string, y: string, before: string, after: string,
                              sm: nat, sy: nat, em: nat, ey: nat, startDay: string, endDay: string)
    requires sm < 100 && em < 100 && sy < 10000 && ey < 10000
    requires x != "" && y != "" && Trimmed(x) && Trimmed(y)
    requires NoneIn(x, PeriodSeparators) && NoneIn(y, PeriodSeparators)
    requires AllSpaces(before) && AllSpaces(after)
    requires NoneIn(before, PeriodSeparators) && NoneIn(after, PeriodSeparators)
    requires Split(x, ".") == [startDay, Pad2(sm), Pad4(sy)]
    requires Split(y, ".") == [endDay, Pad2(em), Pad4(ey)]
    ensures RentalDuration(x + before + "-" + after + y) == Ok(MonthDifference(sm, sy, em, ey))
  {
    var text := x + before + "-" + after + y;
    PeriodPartsOfTwo(x, y, before, after);
    RentalDurationOfTwo(text, x, y);
    NoDash(x);
    NoDash(y);
    UnpaddedDash(x, y);
    RangeLengthPadded(x, y, "", "", sm, sy, em, ey, startDay, endDay);
  }

  lemma NoDash(x: string)
    requires NoneIn(x, PeriodSeparators)
    ensures '-' !in x
  {
    assert forall i | 0 <= i < |x| :: x[i] != '-';
  }

  lemma UnpaddedDash(x: string, y: string)
    ensures x + "" + "-" + "" + y == x + "-" + y
  {
  }

  /**
   * A cell "start - end" of two dates as strftime writes them, with blanks around
   * the dash, spans the months from start to end and starts on the first date.
   */
  lemma RentalPeriodOfDates(a: Date, b: Date, before: string, after: string)
    requires ValidDate(a) && ValidDate(b) && a.year >= 1000 && b.year >= 1000
    requires AllSpaces(before) && AllSpaces(after)
    requires NoneIn(before, PeriodSeparators) && NoneIn(after, PeriodSeparators)
    ensures RentalDuration(RenderDate(a) + before + "-" + after + RenderDate(b))
            == Ok(MonthDifference(a.month, a.year, b.month, b.year))
    ensures RentalStart(RenderDate(a) + before + "-" + after + RenderDate(b)) == Ok(a)
  {
    var x, y := RenderDate(a), RenderDate(b);
    RenderDateFree(a);
    RenderDateFree(b);
    RenderDateFields(a);
    RenderDateFields(b);
    RentalDurationOfTexts(x, y, before, after, a.month, a.year, b.month, b.year, Pad2(a.day), Pad2(b.day));
    PeriodPartsOfTwo(x, y, before, after);
    ParseRenderDate(a);
    RentalStartOfFirst(x + before + "-" + after + y, [x, y], a);
  }

  /** A cell holding a single date, as strftime writes it, is open-ended and starts on that date. */
  lemma RentalPeriodOfOneDate(a: Date, before: string, after: string)
    requires ValidDate(a) && a.year >= 1000
    requires AllSpaces(before) && AllSpaces(after)
    requires NoneIn(before, PeriodSeparators) && NoneIn(after, PeriodSeparators)
    ensures RentalDuration(before + RenderDate(a) + after) == Ok(-1)
    ensures RentalStart(before + RenderDate(a) + after) == Ok(a)
  {
    var x := RenderDate(a);
    RenderDateFree(a);
    RenderDateFields(a);
    var t := before + x + after;
    assert NoneIn(t, PeriodSeparators);
    StripPadded(before, x, after);
    assert Join([t], "-") == t;
    CleanPartsOfJoin([t], '-', PeriodSeparators);
    assert PeriodParts(t) == [x];
    ParseRenderDate(a);
    RentalStartOfFirst(t, [x], a);
  }

  /** A rendered date is digits and dots: no dash, no line break. */
  lemma RenderDateFree(d: Date)
    requires ValidDate(d)
    ensures NoneIn(RenderDate(d), PeriodSeparators) && NoneIn(RenderDate(d), InfoSeparators)
  {
    var s := RenderDate(d);
    var p, q, r := Pad2(d.day), Pad2(d.month), NatToString(d.year);
    assert s == p + "." + q + "." + r;
    forall i | 0 <= i < |s| ensures IsDigit(s[i]) || s[i] == '.' {
      if i < |p| {
        assert s[i] == p[i];
      } else if i == |p| {
      } else if i < |p| + 1 + |q| {
        assert s[i] == q[i - |p| - 1];
      } else if i == |p| + 1 + |q| {
      } else {
        assert s[i] == r[i - |p| - |q| - 2];
      }
    }
  }

  // ---------------------------------------------------------------- check_verified_business

  /** 1 when the listing carries the verified badge and its text, lowercased, mentions "unternehmen"; 0 otherwise. */
  function VerifiedStatus(badge: Option<string>): (status: int)
    ensures status == 0 || status == 1
  {
    if badge.Some? && Contains(Lower(badge.value), "unternehmen") then 1 else 0
  }

  /** The badge test ignores case: "Verifiziertes UNTERNEHMEN" counts like "verifiziertes unternehmen". */
  lemma VerifiedIgnoresCase(badge: string)
    ensures VerifiedStatus(Some(Upper(badge))) == VerifiedStatus(Some(badge))
    ensures VerifiedStatus(None) == 0
  {
    LowerUpper(badge);
  }

  // ---------------------------------------------------------------- the extractor loops

  method ReferenceUrls(listings: seq<ListingElement>) returns (refs: seq<string>)
    ensures |refs| == |listings|
    ensures forall i | 0 <= i < |listings| :: refs[i] == listings[i].href
  {
    refs := [];
    for i := 0 to |listings|
      invariant |refs| == i
      invariant forall j | 0 <= j < i :: refs[j] == listings[j].href
    {
      refs := refs + [listings[i].href];
    }
  }

  method UserNames(listings: seq<ListingElement>) returns (users: seq<string>)
    ensures |users| == |listings|
    ensures forall i | 0 <= i < |listings| :: users[i] == listings[i].userName
  {
    users := [];
    for i := 0 to |listings|
      invariant |users| == i
      invariant forall j | 0 <= j < i :: users[j] == listings[j].userName
    {
      users := users + [listings[i].userName];
    }
  }

  /** The addresses and flat types, one per listing; IndexError at the first listing whose info cell is blank. */
  method RentalInfos(listings: seq<ListingElement>) returns (r: Result<(seq<string>, seq<string>), ListingError>)
    ensures r.Ok? <==> forall i | 0 <= i < |listings| :: ParseRentalInfo(listings[i].infoText).Ok?
    ensures r.Ok? ==> |r.value.0| == |listings| && |r.value.1| == |listings|
    ensures r.Ok? ==> forall i | 0 <= i < |listings| ::
      ParseRentalInfo(listings[i].infoText) == Ok(RentalInfo(r.value.0[i], r.value.1[i]))
    ensures r.Err? ==> r.error == IndexError
  {
    var address: seq<string> := [];
    var wgType: seq<string> := [];
    for i := 0 to |listings|
      invariant |address| == i && |wgType| == i
      invariant forall j | 0 <= j < i :: ParseRentalInfo(listings[j].infoText) == Ok(RentalInfo(address[j], wgType[j]))
    {
      var parts := CleanParts(listings[i].infoText, InfoSeparators);
      if |parts| == 0 {
        return Err(IndexError);
      }
      wgType := wgType + [parts[0]];
      address := address + [Join(Reverse(parts)[..|parts| - 1], ", ")];
    }
    r := Ok((address, wgType));
  }

  /** The month count of each listing's period; the first error any of them raises otherwise. */
  method RentalDurations(listings: seq<ListingElement>) returns (r: Result<seq<int>, RangeError>)
    ensures r.Ok? ==> |r.value| == |listings|
    ensures r.Ok? ==> forall i | 0 <= i < |listings| :: RentalDuration(listings[i].periodText) == Ok(r.value[i])
    ensures r.Err? ==> exists i | 0 <= i < |listings| ::
      RentalDuration(listings[i].periodText) == Err(r.error)
      && forall j | 0 <= j < i :: RentalDuration(listings[j].periodText).Ok?
  {
    var lengths: seq<int> := [];
    for i := 0 to |listings|
      invariant |lengths| == i
      invariant forall j | 0 <= j < i :: RentalDuration(listings[j].periodText) == Ok(lengths[j])
    {
      var months := RentalDuration(listings[i].periodText);
      if months.Err? {
        return Err(months.error);
      }
      lengths := lengths + [months.value];
    }
    r := Ok(lengths);
  }

  /** The start date of each listing's period; the first error any of them raises otherwise. */
  method RentalStartDates(listings: seq<ListingElement>) returns (r: Result<seq<Date>, ListingError>)
    ensures r.Ok? ==> |r.value| == |listings|
    ensures r.Ok? ==> forall i | 0 <= i < |listings| :: RentalStart(listings[i].periodText) == Ok(r.value[i])
    ensures r.Err? ==> exists i | 0 <= i < |listings| ::
      RentalStart(listings[i].periodText) == Err(r.error)
      && forall j | 0 <= j < i :: RentalStart(listings[j].periodText).Ok?
  {
    var starts: seq<Date> := [];
    for i := 0 to |listings|
      invariant |starts| == i
      invariant forall j | 0 <= j < i :: RentalStart(listings[j].periodText) == Ok(starts[j])
    {
      var d := RentalStart(listings[i].periodText);
      if d.Err? {
        return Err(d.error);
      }
      starts := starts + [d.value];
    }
    r := Ok(starts);
  }

  method CheckVerifiedBusiness(listings: seq<ListingElement>) returns (flags: seq<int>)
    ensures |flags| == |listings|
    ensures forall i | 0 <= i < |listings| ::
      flags[i] == (if listings[i].verifiedLabel.Some? && Contains(Lower(listings[i].verifiedLabel.value), "unternehmen") then 1 else 0)
  {
    flags := [];
    for i := 0 to |listings|
      invariant |flags| == i
      invariant forall j | 0 <= j < i :: flags[j] == VerifiedStatus(listings[j].verifiedLabel)
    {
      var status := 0;
      var badge := listings[i].verifiedLabel;
      if badge.Some? {
        var text := Lower(badge.value);
        if Contains(text, "unternehmen") {
          status := 1;
        }
      }
      flags := flags + [status];
    }
  }

  // ---------------------------------------------------------------- all_infos

  /** A listing all_infos keeps: its advertiser name is on one line (no agency promotion) and it is not a company's. */
  predicate Kept(userName: string, verified: int) {
    '\n' !in userName && verified == 0
  }

  /**
   * The records of the kept listings, keyed by their index. The six field lists must
   * have one length; the verified flags are only zipped in, so a shorter flag list
   * cuts the records off.
   */
  method AssembleInfos(refs: seq<string>, userNames: seq<string>, addresses: seq<string>, wgTypes: seq<string>,
                       lengths: seq<int>, starts: seq<Date>, verified: seq<int>)
    returns (r: Result<map<nat, ListingRecord>, ListingError>)
    ensures r.Err? <==> !(|userNames| == |addresses| == |wgTypes| == |lengths| == |starts| == |refs|)
    ensures r.Err? ==> r.error == LengthMismatch(LengthMismatchMessage)
    ensures r.Ok? ==> r.value.Keys == set i | 0 <= i < |refs| && i < |verified| && Kept(userNames[i], verified[i])
    ensures r.Ok? ==> forall i | i in r.value ::
      r.value[i] == ListingRecord(refs[i], userNames[i], addresses[i], wgTypes[i], lengths[i], starts[i])
  {
    var n := |refs|;
    if !(|userNames| == n && |addresses| == n && |wgTypes| == n && |lengths| == n && |starts| == n) {
      return Err(LengthMismatch(LengthMismatchMessage));
    }
    var bound := if |verified| < n then |verified| else n;
    var info: map<nat, ListingRecord> := map[];
    for i := 0 to bound
      invariant info.Keys == set j | 0 <= j < i && Kept(userNames[j], verified[j])
      invariant forall j | j in info ::
        info[j] == ListingRecord(refs[j], userNames[j], addresses[j], wgTypes[j], lengths[j], starts[j])
    {
      if '\n' in userNames[i] {
        continue;
      }
      if verified[i] != 0 {
        continue;
      }
      info := info[i := ListingRecord(refs[i], userNames[i], addresses[i], wgTypes[i], lengths[i], starts[i])];
    }
    r := Ok(info);
  }

  /** Every extractor succeeds on every listing. */
  predicate AllParse(listings: seq<ListingElement>) {
    forall i | 0 <= i < |listings| ::
      ParseRentalInfo(listings[i].infoText).Ok?
      && RentalDuration(listings[i].periodText).Ok?
      && RentalStart(listings[i].periodText).Ok?
  }

  /** The record all_infos builds for a listing every extractor accepts. */
  function RecordOf(e: ListingElement): ListingRecord
    requires ParseRentalInfo(e.infoText).Ok? && RentalDuration(e.periodText).Ok? && RentalStart(e.periodText).Ok?
  {
    var info := ParseRentalInfo(e.infoText).value;
    ListingRecord(e.href, e.userName, info.address, info.wgType,
                  RentalDuration(e.periodText).value, RentalStart(e.periodText).value)
  }

  /**
   * all_infos: run the extractors in the getter's order, then keep the listings
   * neither promoted by an agency nor posted by a verified company, under their
   * original index. The length check never fails, since every extractor yields one
   * entry per listing.
   */
  method AllInfos(listings: seq<ListingElement>) returns (r: Result<map<nat, ListingRecord>, ListingError>)
    ensures r.Ok? <==> AllParse(listings)
    ensures r.Err? ==> !r.error.LengthMismatch?
    ensures r.Ok? ==> r.value.Keys == set i | 0 <= i < |listings| && Kept(listings[i].userName, VerifiedStatus(listings[i].verifiedLabel))
    ensures r.Ok? ==> forall i | i in r.value :: i < |listings| && r.value[i] == RecordOf(listings[i])
  {
    var refs := ReferenceUrls(listings);
    var users := UserNames(listings);
    var infos := RentalInfos(listings);
    if infos.Err? {
      return Err(infos.error);
    }
    var lengths := RentalDurations(listings);
    if lengths.Err? {
      return Err(BadRange(lengths.error));
    }
    var starts := RentalStartDates(listings);
    if starts.Err? {
      return Err(starts.error);
    }
    var verified := CheckVerifiedBusiness(listings);
    r := AssembleInfos(refs, users, infos.value.0, infos.value.1, lengths.value, starts.value, verified);
  }
}
