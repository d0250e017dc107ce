/**
 * Calendar dates as the core reads and writes them: datetime.strptime with the
 * format "%d.%m.%Y", strftime with "%d.%m.%Y" and "%d.%m.%Y %H:%M",
 * date.isoformat(), the "YYYY-MM-DD[THH:MM:SS]" forms of datetime.fromisoformat,
 * and the month count between the two halves of a "DD.MM.YYYY-DD.MM.YYYY" range
 * that both listing getters compute.
 */
module Dates {
  import opened Wrappers
  import opened Text

  datatype Date = Date(day: int, month: int, year: int)

  /** A timestamp with minute and second resolution; the core never looks at anything finer. */
  datatype DateTime = DateTime(date: Date, hour: int, minute: int, second: int)

  /** The two ValueErrors strptime raises: text that does not match the format, and a day the month does not have. */
  datatype DateError = DoesNotMatchFormat | OutOfRange

  predicate IsLeap(year: int) {
    year % 4 == 0 && (year % 100 != 0 || year % 400 == 0)
  }

  function DaysInMonth(month: int, year: int): (n: int)
    requires 1 <= month <= 12
    ensures 28 <= n <= 31
    ensures n == 29 <==> month == 2 && IsLeap(year)
  {
    if month == 2 then (if IsLeap(year) then 29 else 28)
    else if month == 4 || month == 6 || month == 9 || month == 11 then 30
    else 31
  }

  /** The dates datetime accepts: years 1 to 9999 and a day the month has. */
  predicate ValidDate(d: Date) {
    1 <= d.year <= 9999 && 1 <= d.month <= 12 && 1 <= d.day <= DaysInMonth(d.month, d.year)
  }

  predicate ValidDateTime(t: DateTime) {
    ValidDate(t.date) && 0 <= t.hour < 24 && 0 <= t.minute < 60 && 0 <= t.second < 60
  }

  /** `a < b` on datetime values at midnight: by year, then month, then day. */
  predicate Before(a: Date, b: Date) {
    a.year < b.year
    || (a.year == b.year && a.month < b.month)
    || (a.year == b.year && a.month == b.month && a.day < b.day)
  }

  lemma BeforeIsStrictTotalOrder(a: Date, b: Date, c: Date)
    ensures !Before(a, a)
    ensures Before(a, b) && Before(b, c) ==> Before(a, c)
    ensures a == b || Before(a, b) || Before(b, a)
    ensures !(Before(a, b) && Before(b, a))
  {
  }

  /** The months from one (month, year) to another, as the core counts them: the day plays no part. */
  function MonthDifference(startMonth: int, startYear: int, endMonth: int, endYear: int): int {
    (endYear - startYear) * 12 + (endMonth - startMonth)
  }

  // ---------------------------------------------------------------- strptime "%d.%m.%Y"

  /** The text `%d` matches: "30"-"31", "10"-"29", "01"-"09", "1"-"9" or a space and "1"-"9". */
  predicate IsDayToken(t: string) {
    (|t| == 1 && '1' <= t[0] <= '9')
    || (|t| == 2 && t[0] == '0' && '1' <= t[1] <= '9')
    || (|t| == 2 && (t[0] == '1' || t[0] == '2') && IsDigit(t[1]))
    || (|t| == 2 && t[0] == '3' && (t[1] == '0' || t[1] == '1'))
    || (|t| == 2 && t[0] == ' ' && '1' <= t[1] <= '9')
  }

  /** The text `%m` matches: "10"-"12", "01"-"09" or "1"-"9". */
  predicate IsMonthToken(t: string) {
    (|t| == 1 && '1' <= t[0] <= '9')
    || (|t| == 2 && t[0] == '0' && '1' <= t[1] <= '9')
    || (|t| == 2 && t[0] == '1' && '0' <= t[1] <= '2')
  }

  /** The text `%Y` matches: exactly four digits. */
  predicate IsYearToken(t: string) {
    |t| == 4 && AllDigits(t)
  }

  /** The numeric value of a day, month or year token; a leading space is skipped. */
  function TokenValue(t: string): nat
    requires IsDayToken(t) || IsMonthToken(t) || IsYearToken(t)
  {
    if t[0] == ' ' then DigitsValue(t[1..]) else DigitsValue(t)
  }

  /**
   * datetime.strptime(s, "%d.%m.%Y"). No token the three directives match holds a
   * '.', so the text matches the format exactly when it has two dots and the three
   * pieces between them match the directives.
   */
  function ParseDate(s: string): (r: Result<Date, DateError>)
    ensures r.Ok? ==> ValidDate(r.value)
    ensures r.Ok? ==> CountChar(s, '.') == 2
  {
    var fields := Split(s, ".");
    SplitCount(s, '.');
    if |fields| != 3 || !IsDayToken(fields[0]) || !IsMonthToken(fields[1]) || !IsYearToken(fields[2]) then
      Err(DoesNotMatchFormat)
    else
      var d := Date(TokenValue(fields[0]), TokenValue(fields[1]), TokenValue(fields[2]));
      if ValidDate(d) then Ok(d) else Err(OutOfRange)
  }

  /** strftime("%d.%m.%Y"): %Y is the year in decimal without padding, as the C library writes it. */
  function RenderDate(d: Date): (s: string)
    requires ValidDate(d)
  {
    Pad2(d.day) + "." + Pad2(d.month) + "." + NatToString(d.year)
  }

  /** strftime("%d.%m.%Y %H:%M") */
  function RenderDateTime(t: DateTime): (s: string)
    requires ValidDateTime(t)
  {
    RenderDate(t.date) + " " + Pad2(t.hour) + ":" + Pad2(t.minute)
  }

  /** date.isoformat() of a date at midnight, as datetime writes it: "%04d-%02d-%02dT00:00:00". */
  function IsoFormat(d: Date): (s: string)
    requires ValidDate(d)
    ensures |s| == 19 && s[4] == '-' && s[7] == '-' && s[10] == 'T'
  {
    Pad4(d.year) + "-" + Pad2(d.month) + "-" + Pad2(d.day) + "T00:00:00"
  }

  predicate DigitsAt(s: string, i: nat, n: nat) {
    i + n <= |s| && AllDigits(s[i..i + n])
  }

  /**
   * datetime.fromisoformat on "YYYY-MM-DD" or "YYYY-MM-DD" followed by any one
   * separator character and "HH:MM:SS"; every other text is refused.
   */
  function ParseIso(s: string): (r: Result<DateTime, DateError>)
    ensures r.Ok? ==> ValidDateTime(r.value)
    ensures r.Ok? ==> |s| == 10 || |s| == 19
  {
    if !((|s| == 10 || |s| == 19) && DigitsAt(s, 0, 4) && s[4] == '-' && DigitsAt(s, 5, 2) && s[7] == '-' && DigitsAt(s, 8, 2)) then
      Err(DoesNotMatchFormat)
    else
      var d := Date(DigitsValue(s[8..10]), DigitsValue(s[5..7]), DigitsValue(s[0..4]));
      if |s| == 10 then
        if ValidDate(d) then Ok(DateTime(d, 0, 0, 0)) else Err(OutOfRange)
      else if !(DigitsAt(s, 11, 2) && s[13] == ':' && DigitsAt(s, 14, 2) && s[16] == ':' && DigitsAt(s, 17, 2)) then
        Err(DoesNotMatchFormat)
      else
        var t := DateTime(d, DigitsValue(s[11..13]), DigitsValue(s[14..16]), DigitsValue(s[17..19]));
        if ValidDateTime(t) then Ok(t) else Err(OutOfRange)
  }

  // ---------------------------------------------------------------- round trips

  lemma {:induction false} NatToStringFourDigits(n: nat)
    requires 1000 <= n <= 9999
    ensures NatToString(n) == Pad4(n)
  {
    assert Pow10(3) == 1000 && Pow10(4) == 10000;
    NatToStringPadded(n, 4);
  }

  lemma DayTokenOfPad2(day: int)
    requires 1 <= day <= 31
    ensures IsDayToken(Pad2(day)) && TokenValue(Pad2(day)) == day
  {
    Pad2Chars(day);
    Pad2Value(day);
  }

  lemma MonthTokenOfPad2(month: int)
    requires 1 <= month <= 12
    ensures IsMonthToken(Pad2(month)) && TokenValue(Pad2(month)) == month
  {
    Pad2Chars(month);
    Pad2Value(month);
  }

  /** The three fields of a rendered date; the text has no '-' and no surrounding whitespace. */
  lemma RenderDateFields(d: Date)
    requires ValidDate(d) && d.year >= 1000
    ensures Split(RenderDate(d), ".") == [Pad2(d.day), Pad2(d.month), Pad4(d.year)]
    ensures Trimmed(RenderDate(d)) && '-' !in RenderDate(d)
  {
    NatToStringFourDigits(d.year);
    var fields := [Pad2(d.day), Pad2(d.month), Pad4(d.year)];
    JoinThree(fields[0], fields[1], fields[2], ".");
    DigitsExclude(fields[0], '.');
    DigitsExclude(fields[1], '.');
    DigitsExclude(fields[2], '.');
    SplitJoin(fields, ".");
    DigitsExclude(fields[0], '-');
    DigitsExclude(fields[1], '-');
    DigitsExclude(fields[2], '-');
    var s := RenderDate(d);
    assert s[0] == fields[0][0] && s[|s| - 1] == fields[2][3];
  }

  /** strptime("%d.%m.%Y") reads back what strftime("%d.%m.%Y") writes, for four-digit years. */
  lemma ParseRenderDate(d: Date)
    requires ValidDate(d) && d.year >= 1000
    ensures ParseDate(RenderDate(d)) == Ok(d)
  {
    RenderDateFields(d);
    DayTokenOfPad2(d.day);
    MonthTokenOfPad2(d.month);
    Pad4Value(d.year);
  }

  /** fromisoformat reads back what isoformat writes. */
  lemma ParseIsoFormat(d: Date)
    requires ValidDate(d)
    ensures ParseIso(IsoFormat(d)) == Ok(DateTime(d, 0, 0, 0))
  {
    var s := IsoFormat(d);
    IsoFormatFields(d);
    Pad4Value(d.year);
    Pad2Value(d.month);
    Pad2Value(d.day);
    assert DigitsValue("00") == 0 by { assert "00"[..1] == "0"; }
    assert DigitsAt(s, 0, 4) && DigitsAt(s, 5, 2) && DigitsAt(s, 8, 2);
    assert DigitsAt(s, 11, 2) && DigitsAt(s, 14, 2) && DigitsAt(s, 17, 2);
  }

  /** Where isoformat puts each field. */
  lemma IsoFormatFields(d: Date)
    requires ValidDate(d)
    ensures IsoFormat(d)[0..4] == Pad4(d.year) && IsoFormat(d)[5..7] == Pad2(d.month) && IsoFormat(d)[8..10] == Pad2(d.day)
    ensures IsoFormat(d)[11..13] == "00" && IsoFormat(d)[13] == ':' && IsoFormat(d)[14..16] == "00" && IsoFormat(d)[16] == ':' && IsoFormat(d)[17..19] == "00"
  {
    var s := IsoFormat(d);
    assert s[0..4] == Pad4(d.year) && s[5..7] == Pad2(d.month) && s[8..10] == Pad2(d.day);
    assert s[11..13] == "00" && s[14..16] == "00" && s[17..19] == "00";
  }

  /** A rendered date has no whitespace and holds a '.'. */
  lemma RenderDateNoSpace(d: Date)
    requires ValidDate(d)
    ensures forall i | 0 <= i < |RenderDate(d)| :: !IsSpace(RenderDate(d)[i])
    ensures |RenderDate(d)| > 2 && RenderDate(d)[2] == '.'
  {
    var s := RenderDate(d);
    var p, q, r := Pad2(d.day), Pad2(d.month), NatToString(d.year);
    assert s == p + "." + q + "." + r;
    forall i | 0 <= i < |s| ensures !IsSpace(s[i]) {
      if i < |p| {
        assert s[i] == p[i];
      } else if i == |p| {
      } else if i < |p| + 1 + |q| {
        assert s[i] == q[i - |p| - 1];
      } else if i == |p| + 1 + |q| {
      } else {
        assert s[i] == r[i - |p| - |q| - 2];
      }
    }
  }

  lemma {:induction false} ParseDateRejectsDashes()
    ensures ParseDate("01-05-2024") == Err(DoesNotMatchFormat)
  {
    var s := "01-05-2024";
    CountCharAbsent(s, '.');
    SplitCount(s, '.');
  }

  lemma ParseDateRejectsYearFirst()
    ensures ParseDate("2024.05.01") == Err(DoesNotMatchFormat)
  {
    var s := "2024.05.01";
    assert s == Join(["2024", "05", "01"], ".");
    SplitJoin(["2024", "05", "01"], ".");
  }

  // ---------------------------------------------------------------- range length

  /** The ValueErrors of the month computation: a half that is not three dot-separated fields, or a field int() refuses. */
  datatype RangeError = NotThreeFields | NotAnInt

  /**
   * The months from the start to the end of "DD.MM.YYYY-DD.MM.YYYY"; -1 (an open-ended
   * listing) unless the text splits on "-" into exactly two halves. Each stripped half
   * must split on "." into three fields; only the month and year fields go through int().
   */
  function RangeLength(s: string): (r: Result<int, RangeError>)
    ensures |Split(s, "-")| != 2 ==> r == Ok(-1)
    ensures r.Err? ==> |Split(s, "-")| == 2
    ensures r == Err(NotThreeFields) <==>
      |Split(s, "-")| == 2 && (|Split(Strip(Split(s, "-")[0]), ".")| != 3 || |Split(Strip(Split(s, "-")[1]), ".")| != 3)
  {
    var halves := Split(s, "-");
    if |halves| != 2 then Ok(-1)
    else
      var start := Split(Strip(halves[0]), ".");
      var end := Split(Strip(halves[1]), ".");
      if |start| != 3 || |end| != 3 then Err(NotThreeFields)
      else FieldMonths(start[1], start[2], end[1], end[2])
  }

  /** The month count from the month and year fields of both halves; int() reads the end year first. */
  function FieldMonths(startMonth: string, startYear: string, endMonth: string, endYear: string): Result<int, RangeError>
  {
    var ey, sy, em, sm := ParseInt(endYear), ParseInt(startYear), ParseInt(endMonth), ParseInt(startMonth);
    if ey.None? || sy.None? || em.None? || sm.None? then Err(NotAnInt)
    else Ok(MonthDifference(sm.value, sy.value, em.value, ey.value))
  }

  /** Any text without exactly one '-' is an open-ended listing. */
  lemma RangeLengthUnlimited(s: string)
    requires CountChar(s, '-') != 1
    ensures RangeLength(s) == Ok(-1)
  {
    SplitCount(s, '-');
  }

  /**
   * Two halves without '-' whose stripped texts split into a day field, a zero-padded
   * month and a four-digit year give the months between the two dates.
   */
  lemma RangeLengthOfHalves(left: string, right: string, sm: nat, sy: nat, em: nat, ey: nat, startDay: string, endDay: string)
    requires sm < 100 && em < 100 && sy < 10000 && ey < 10000
    requires '-' !in left && '-' !in right
    requires Split(Strip(left), ".") == [startDay, Pad2(sm), Pad4(sy)]
    requires Split(Strip(right), ".") == [endDay, Pad2(em), Pad4(ey)]
    ensures RangeLength(left + "-" + right) == Ok(MonthDifference(sm, sy, em, ey))
  {
    JoinTwo(left, right, "-");
    SplitJoin([left, right], "-");
    assert Split(left + "-" + right, "-") == [left, right];
    FieldMonthsOfPadded(sm, sy, em, ey);
  }

  lemma FieldMonthsOfPadded(sm: nat, sy: nat, em: nat, ey: nat)
    requires sm < 100 && em < 100 && sy < 10000 && ey < 10000
    ensures FieldMonths(Pad2(sm), Pad4(sy), Pad2(em), Pad4(ey)) == Ok(MonthDifference(sm, sy, em, ey))
  {
    ParseIntPad2(sm);
    ParseIntPad2(em);
    ParseIntPad4(sy);
    ParseIntPad4(ey);
    FieldMonthsOfInts(Pad2(sm), Pad4(sy), Pad2(em), Pad4(ey), sm, sy, em, ey);
  }

  lemma FieldMonthsOfInts(startMonth: string, startYear: string, endMonth: string, endYear: string, sm: int, sy: int, em: int, ey: int)
    requires ParseInt(startMonth) == Some(sm) && ParseInt(startYear) == Some(sy)
    requires ParseInt(endMonth) == Some(em) && ParseInt(endYear) == Some(ey)
    ensures FieldMonths(startMonth, startYear, endMonth, endYear) == Ok(MonthDifference(sm, sy, em, ey))
  {
  }

  /** Whitespace around the '-' is stripped away before the halves are split into fields. */
  lemma RangeLengthPadded(x: string, y: string, before: string, after: string, sm: nat, sy: nat, em: nat, ey: nat, startDay: string, endDay: string)
    requires sm < 100 && em < 100 && sy < 10000 && ey < 10000
    requires AllSpaces(before) && AllSpaces(after)
    requires Trimmed(x) && Trimmed(y) && '-' !in x && '-' !in y
    requires Split(x, ".") == [startDay, Pad2(sm), Pad4(sy)]
    requires Split(y, ".") == [endDay, Pad2(em), Pad4(ey)]
    ensures RangeLength(x + before + "-" + after + y) == Ok(MonthDifference(sm, sy, em, ey))
  {
    PaddedHalf(x, before, [], '-');
    PaddedHalf(y, [], after, '-');
    RangeLengthRegrouped(x, y, before, after, sm, sy, em, ey, startDay, endDay);
  }

  /** A trimmed half padded with whitespace strips back to itself and gains no `c` that is not whitespace. */
  lemma PaddedHalf(t: string, trail: string, lead: string, c: char)
    requires Trimmed(t) && AllSpaces(trail) && AllSpaces(lead) && !IsSpace(c) && c !in t
    ensures Strip(t + trail) == t && c !in t + trail
    ensures Strip(lead + t) == t && c !in lead + t
  {
    SpacesExclude(trail, c);
    SpacesExclude(lead, c);
    StripPadded([], t, trail);
    assert [] + t + trail == t + trail;
    StripPadded(lead, t, []);
    assert lead + t + [] == lead + t;
  }

  lemma RangeLengthRegrouped(x: string, y: string, before: string, after: string, sm: nat, sy: nat, em: nat, ey: nat, startDay: string, endDay: string)
    requires sm < 100 && em < 100 && sy < 10000 && ey < 10000
    requires '-' !in x + before && '-' !in after + y
    requires Split(Strip(x + before), ".") == [startDay, Pad2(sm), Pad4(sy)]
    requires Split(Strip(after + y), ".") == [endDay, Pad2(em), Pad4(ey)]
    ensures RangeLength(x + before + "-" + after + y) == Ok(MonthDifference(sm, sy, em, ey))
  {
    assert x + before + "-" + after + y == (x + before) + "-" + (after + y);
    RangeLengthOfHalves(x + before, after + y, sm, sy, em, ey, startDay, endDay);
  }

  /**
   * Two rendered dates joined by '-', with any whitespace on either side of it, give
   * the months from the first to the second, as in "01.05.2024-01.08.2024" (3) and
   * "01.12.2024 - 01.02.2025" (2).
   */
  lemma RangeLengthOfRenderedDates(a: Date, b: Date, before: string, after: string)
    requires ValidDate(a) && ValidDate(b) && a.year >= 1000 && b.year >= 1000
    requires AllSpaces(before) && AllSpaces(after)
    ensures RangeLength(RenderDate(a) + before + "-" + after + RenderDate(b))
            == Ok(MonthDifference(a.month, a.year, b.month, b.year))
  {
    RenderDateFields(a);
    RenderDateFields(b);
    RangeLengthPadded(RenderDate(a), RenderDate(b), before, after, a.month, a.year, b.month, b.year, Pad2(a.day), Pad2(b.day));
  }

  /** The day fields never reach int(): any text in their place gives the same result. */
  lemma RangeLengthIgnoresDays(startDay: string, endDay: string, sm: nat, sy: nat, em: nat, ey: nat)
    requires sm < 100 && em < 100 && sy < 10000 && ey < 10000
    requires '.' !in startDay && '-' !in startDay && '.' !in endDay && '-' !in endDay
    requires Trimmed(startDay) && Trimmed(endDay)
    ensures RangeLength(Join([startDay, Pad2(sm), Pad4(sy)], ".") + "-" + Join([endDay, Pad2(em), Pad4(ey)], "."))
            == Ok(MonthDifference(sm, sy, em, ey))
  {
    var left := Join([startDay, Pad2(sm), Pad4(sy)], ".");
    var right := Join([endDay, Pad2(em), Pad4(ey)], ".");
    DayFieldsFree(startDay, sm, sy);
    DayFieldsFree(endDay, em, ey);
    RangeLengthOfHalves(left, right, sm, sy, em, ey, startDay, endDay);
  }

  lemma DayFieldsFree(day: string, m: nat, y: nat)
    requires m < 100 && y < 10000
    requires '.' !in day && '-' !in day && Trimmed(day)
    ensures var s := Join([day, Pad2(m), Pad4(y)], ".");
      '-' !in s && Strip(s) == s && Split(s, ".") == [day, Pad2(m), Pad4(y)]
  {
    var s := Join([day, Pad2(m), Pad4(y)], ".");
    JoinThree(day, Pad2(m), Pad4(y), ".");
    DigitsExclude(Pad2(m), '.');
    DigitsExclude(Pad4(y), '.');
    DigitsExclude(Pad2(m), '-');
    DigitsExclude(Pad4(y), '-');
    SplitJoin([day, Pad2(m), Pad4(y)], ".");
    if day == [] {
      assert s[0] == '.';
    }
    assert s[|s| - 1] == Pad4(y)[3];
    StripTrimmed(s);
  }
}
