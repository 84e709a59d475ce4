/**
 * The date helpers of src/utils/DateUtils.ts. A JavaScript `Date` is modelled as a
 * calendar day at local midnight (every `Date` these helpers build is one) or as the
 * "Invalid Date" that a constructor fed NaN, or a day beyond the finite time-value
 * range, produces.
 */
module DateUtils {
  import opened Wrappers
  import opened Strings

  /** A calendar day; `monthIndex` is 0-based, as `Date.prototype.getMonth` returns it. */
  datatype Date = Date(year: int, monthIndex: int, day: int)

  predicate IsLeapYear(year: int) {
    year % 4 == 0 && (year % 100 != 0 || year % 400 == 0)
  }

  function DaysInMonth(year: int, monthIndex: int): (n: int)
    requires 0 <= monthIndex < 12
    ensures 28 <= n <= 31
  {
    if monthIndex == 1 then (if IsLeapYear(year) then 29 else 28)
    else if monthIndex == 3 || monthIndex == 5 || monthIndex == 8 || monthIndex == 10 then 30
    else 31
  }

  /** Days from 1 January 1970 to `d` in the proleptic Gregorian calendar, counted in
      eras of 400 years (146097 days each) from 1 March of year 0. */
  function DayNumber(d: Date): int {
    var m := d.monthIndex + 1;
    var y := if m <= 2 then d.year - 1 else d.year;
    var era := y / 400;
    var yearOfEra := y - era * 400;
    var dayOfYear := (153 * (if m > 2 then m - 3 else m + 9) + 2) / 5 + d.day - 1;
    era * 146097 + yearOfEra * 365 + yearOfEra / 4 - yearOfEra / 100 + dayOfYear - 719468
  }

  /** The time value of local midnight on `d`, in milliseconds (86400000 to a day). The
      model fixes one host time zone, UTC-3 (Brasília, the library's locale) without
      daylight saving, so UTC is local time plus 10800000 ms. */
  function MidnightTimeValue(d: Date): int {
    DayNumber(d) * 86400000 + 10800000
  }

  /** A day that exists in the proleptic Gregorian calendar: a month index from 0 to 11
      and a day within that month. */
  predicate IsCalendarDay(d: Date) {
    0 <= d.monthIndex < 12 && 1 <= d.day <= DaysInMonth(d.year, d.monthIndex)
  }

  /** `a` is the same day as `b` or a later one. */
  predicate NotBefore(a: Date, b: Date) {
    || a.year > b.year
    || (a.year == b.year && (a.monthIndex > b.monthIndex || (a.monthIndex == b.monthIndex && a.day >= b.day)))
  }

  /** `d` lies between 20 April -271821 and 12 September 275760: the days whose local
      midnight has a finite time value, at most 8.64e15 ms either side of the epoch
      (TimeClip, section 21.4.1.31 of ECMA-262); `InTimeRangeIsTimeClip` proves it. */
  predicate InTimeRange(d: Date) {
    NotBefore(d, Date(-271821, 3, 20)) && NotBefore(Date(275760, 8, 12), d)
  }

  /** A calendar day whose local midnight lies within the finite time-value range, so
      that `new Date` builds it. */
  predicate ValidDate(d: Date) {
    IsCalendarDay(d) && InTimeRange(d)
  }

  type CalendarDate = d: Date | ValidDate(d) witness Date(1970, 0, 1)

  /** A JavaScript `Date` object: a valid day, or "Invalid Date" (a NaN time value). */
  datatype JsDate = InvalidDate | DateOf(date: CalendarDate)

  /** `new Date(year, monthIndex, day)` for integer arguments: a year from 0 to 99 means
      1900 plus that year. Arguments outside the calendar give InvalidDate here (the
      engine would roll them over into a neighbouring month), and so does a day whose
      time value falls outside the finite range, as in the engine. */
  function NewDate(year: int, monthIndex: int, day: int): (r: JsDate)
    ensures r.DateOf? ==> r.date.monthIndex == monthIndex && r.date.day == day
    ensures r.DateOf? ==> r.date.year == if 0 <= year <= 99 then 1900 + year else year
    ensures r.InvalidDate? <==> !ValidDate(Date(if 0 <= year <= 99 then 1900 + year else year, monthIndex, day))
  {
    var fullYear := if 0 <= year <= 99 then 1900 + year else year;
    var d := Date(fullYear, monthIndex, day);
    if ValidDate(d) then DateOf(d) else InvalidDate
  }

  /** Every day after the year 275760 is more than 1e8 days after the epoch. */
  lemma DaysAfterLastYear(d: Date)
    requires IsCalendarDay(d) && d.year > 275760
    ensures DayNumber(d) > 100000000
  {
  }

  /** Every day before the year -271821 is more than 1e8 days before the epoch. */
  lemma DaysBeforeFirstYear(d: Date)
    requires IsCalendarDay(d) && d.year < -271821
    ensures DayNumber(d) < -100000000
  {
  }

  /** Every day of the years in between is well inside 1e8 days of the epoch. */
  lemma DaysOfMiddleYears(d: Date)
    requires IsCalendarDay(d) && -271821 < d.year < 275760
    ensures -100000000 < DayNumber(d) < 99999999
  {
  }

  /** In the year 275760, the days up to 12 September are within 1e8 - 1 days of the epoch. */
  lemma DaysOfLastYear(d: Date)
    requires IsCalendarDay(d) && d.year == 275760
    ensures DayNumber(d) <= 99999999 <==> NotBefore(Date(275760, 8, 12), d)
  {
  }

  /** In the year -271821, the days from 20 April on are within 1e8 days of the epoch. */
  lemma DaysOfFirstYear(d: Date)
    requires IsCalendarDay(d) && d.year == -271821
    ensures DayNumber(d) >= -100000000 <==> NotBefore(d, Date(-271821, 3, 20))
  {
  }

  /** For a calendar day, `InTimeRange` is exactly the time-value bound of TimeClip. */
  lemma InTimeRangeIsTimeClip(d: Date)
    requires IsCalendarDay(d)
    ensures InTimeRange(d) <==> -8640000000000000 <= MidnightTimeValue(d) <= 8640000000000000
  {
    if d.year > 275760 {
      DaysAfterLastYear(d);
    } else if d.year == 275760 {
      DaysOfLastYear(d);
    } else if d.year > -271821 {
      DaysOfMiddleYears(d);
    } else if d.year == -271821 {
      DaysOfFirstYear(d);
    } else {
      DaysBeforeFirstYear(d);
    }
  }

  /** 12 September 275760 is the last `Date`: local midnight on the next day is past the
      time-value range. */
  lemma LastDateEdge()
    ensures ValidDate(Date(275760, 8, 12)) && !ValidDate(Date(275760, 8, 13))
    ensures MidnightTimeValue(Date(275760, 8, 12)) <= 8640000000000000 < MidnightTimeValue(Date(275760, 8, 13))
  {
    assert 275760 / 400 == 689;
    assert DayNumber(Date(275760, 8, 13)) == 100000000;
    assert DayNumber(Date(275760, 8, 12)) == 99999999;
  }

  /** 20 April -271821 is the first `Date`: local midnight on the day before is before the
      time-value range. */
  lemma FirstDateEdge()
    ensures ValidDate(Date(-271821, 3, 20)) && !ValidDate(Date(-271821, 3, 19))
    ensures MidnightTimeValue(Date(-271821, 3, 19)) < -8640000000000000 <= MidnightTimeValue(Date(-271821, 3, 20))
  {
    assert -271821 / 400 == -680;
    assert DayNumber(Date(-271821, 3, 20)) == -100000000;
    assert DayNumber(Date(-271821, 3, 19)) == -100000001;
  }

  /** Every `Date` has a year between -271821 and 275760. */
  lemma DateYearsAreBounded(d: Date)
    requires ValidDate(d)
    ensures -271821 <= d.year <= 275760
  {
  }

  /** Every calendar day of the years -271820 to 275759 is a `Date`. */
  lemma DaysOfBoundedYearsAreDates(d: Date)
    requires IsCalendarDay(d) && -271820 <= d.year <= 275759
    ensures ValidDate(d)
  {
  }

  // ---------------------------------------------------------------------------
  // parseDateStringToDate
  // ---------------------------------------------------------------------------

  /** `parseDateStringToDate`: split on `-`, convert the first three pieces with `Number`,
      and build a local date with the month shifted down by one. A missing or non-numeric
      piece is NaN and gives InvalidDate; every date it does build has a year of at least
      100, because two-digit years are read as 19xx. */
  function ParseDateStringToDate(s: string): (r: JsDate)
    ensures r.DateOf? ==> r.date.year >= 100
    ensures |Split(s, '-')| < 3 ==> r == InvalidDate
  {
    var parts := Split(s, '-');
    var year := ToNumber(parts[0]);
    var month := if |parts| > 1 then ToNumber(parts[1]) else None;
    var day := if |parts| > 2 then ToNumber(parts[2]) else None;
    if year.Some? && month.Some? && day.Some? then NewDate(year.value, month.value - 1, day.value)
    else InvalidDate
  }

  // ---------------------------------------------------------------------------
  // formatDateToYMDString and formatDateToYMString
  // ---------------------------------------------------------------------------

  /** Two-digit zero padding, `padStart(2, '0')`. */
  function Pad2(s: string): (r: string)
    ensures |s| <= 2 ==> |r| == 2
  {
    PadStart(s, 2, '0')
  }

  function YearPart(d: JsDate): string {
    match d
    case InvalidDate => "NaN"
    case DateOf(x) => IntToString(x.year)
  }

  function MonthPart(d: JsDate): string {
    match d
    case InvalidDate => "NaN"
    case DateOf(x) => Pad2(IntToString(x.monthIndex + 1))
  }

  function DayPart(d: JsDate): string {
    match d
    case InvalidDate => "NaN"
    case DateOf(x) => Pad2(IntToString(x.day))
  }

  /** `formatDateToYMDString`: `''` for `undefined`; otherwise the full year, the 1-based
      month and the day, month and day zero-padded to two digits, joined with `-`. An
      Invalid Date gives `"NaN-NaN-NaN"`. */
  function FormatDateToYMDString(date: Option<JsDate>): (r: string)
    ensures date.None? <==> r == ""
  {
    match date
    case None => ""
    case Some(d) => YearPart(d) + "-" + MonthPart(d) + "-" + DayPart(d)
  }

  /** `formatDateToYMString`: the year-month prefix of `formatDateToYMDString`, and `''`
      for `undefined`. */
  function FormatDateToYMString(date: Option<JsDate>): (r: string)
    ensures date.None? ==> r == ""
    ensures date.Some? ==> FormatDateToYMDString(date) == r + "-" + DayPart(date.value)
  {
    match date
    case None => ""
    case Some(d) => YearPart(d) + "-" + MonthPart(d)
  }

  /** The zero-padded decimal text of `n` reads back as `n`. */
  lemma PaddedNatReadsBack(n: nat)
    ensures IsDigits(Pad2(NatToString(n))) && DigitsValue(Pad2(NatToString(n))) == n
  {
    PadStartKeepsValue(NatToString(n), 2);
    DigitsValueOfNatToString(n);
  }

  /** Splitting `a-b-c` on `-` gives back `a`, `b` and `c` when none of them holds a `-`. */
  lemma SplitThree(a: string, b: string, c: string)
    requires '-' !in a && '-' !in b && '-' !in c
    ensures Split(a + "-" + b + "-" + c, '-') == [a, b, c]
  {
    assert a + "-" + b + "-" + c == a + "-" + (b + "-" + c);
    SplitAtSeparator(a, b + "-" + c, '-');
    SplitAtSeparator(b, c, '-');
    SplitWithoutSeparator(c, '-');
  }

  /** The parser applied to a string of exactly three numeric pieces. */
  lemma ParseOfThreePieces(s: string, year: int, month: int, day: int)
    requires |Split(s, '-')| == 3
    requires ToNumber(Split(s, '-')[0]) == Some(year)
    requires ToNumber(Split(s, '-')[1]) == Some(month)
    requires ToNumber(Split(s, '-')[2]) == Some(day)
    ensures ParseDateStringToDate(s) == NewDate(year, month - 1, day)
  {
  }

  /** `Y-M-D` made of digit strings parses to the date with those numbers. */
  lemma ParseOfDigitPieces(y: string, m: string, d: string, year: int, month: int, day: int)
    requires IsDigits(y) && IsDigits(m) && IsDigits(d)
    requires DigitsValue(y) == year && DigitsValue(m) == month && DigitsValue(d) == day
    ensures ParseDateStringToDate(y + "-" + m + "-" + d) == NewDate(year, month - 1, day)
  {
    DigitsHaveNo(y, '-');
    DigitsHaveNo(m, '-');
    DigitsHaveNo(d, '-');
    SplitThree(y, m, d);
    ParseOfThreePieces(y + "-" + m + "-" + d, year, month, day);
  }

  /** A year beyond the time-value range parses to an Invalid Date. */
  lemma FarYearIsNoDate()
    ensures ParseDateStringToDate("300000-01-01") == InvalidDate
  {
    assert DigitsValue("3") == 3;
    assert "30"[..1] == "3";
    assert DigitsValue("30") == 30;
    assert "300"[..2] == "30";
    assert DigitsValue("300") == 300;
    assert "3000"[..3] == "300";
    assert DigitsValue("3000") == 3000;
    assert "30000"[..4] == "3000";
    assert DigitsValue("30000") == 30000;
    assert "300000"[..5] == "30000";
    assert DigitsValue("300000") == 300000;
    assert "01"[..1] == "0";
    assert DigitsValue("01") == 1;
    ParseOfDigitPieces("300000", "01", "01", 300000, 1, 1);
    assert "300000" + "-" + "01" + "-" + "01" == "300000-01-01";
  }

  /** The pieces of a formatted date with a non-negative year. */
  lemma FormattedPieces(d: CalendarDate)
    requires d.year >= 0
    ensures FormatDateToYMDString(Some(DateOf(d)))
         == NatToString(d.year) + "-" + Pad2(NatToString(d.monthIndex + 1)) + "-" + Pad2(NatToString(d.day))
  {
    var x := DateOf(d);
    assert YearPart(x) == NatToString(d.year);
    assert MonthPart(x) == Pad2(NatToString(d.monthIndex + 1));
    assert DayPart(x) == Pad2(NatToString(d.day));
  }

  /** Building a date from the components of a calendar day with a year from 100 on gives that day. */
  lemma NewDateOfCalendarDate(d: CalendarDate)
    requires d.year >= 100
    ensures NewDate(d.year, d.monthIndex, d.day) == DateOf(d)
  {
  }

  /** Parsing a formatted date rebuilds it from its year, 1-based month and day. */
  lemma ParseOfFormatted(d: CalendarDate)
    requires d.year >= 0
    ensures ParseDateStringToDate(FormatDateToYMDString(Some(DateOf(d)))) == NewDate(d.year, d.monthIndex + 1 - 1, d.day)
  {
    var y, m, dd := NatToString(d.year), Pad2(NatToString(d.monthIndex + 1)), Pad2(NatToString(d.day));
    FormattedPieces(d);
    DigitsValueOfNatToString(d.year);
    PaddedNatReadsBack(d.monthIndex + 1);
    PaddedNatReadsBack(d.day);
    ParseOfDigitPieces(y, m, dd, d.year, d.monthIndex + 1, d.day);
  }

  /** Formatting a date and parsing the text back gives the same date, for every year from
      100 on (years below 100 are read back as 19xx). */
  lemma {:induction false} ParseFormatRoundTrip(d: CalendarDate)
    requires d.year >= 100
    ensures ParseDateStringToDate(FormatDateToYMDString(Some(DateOf(d)))) == DateOf(d)
  {
    ParseOfFormatted(d);
    NewDateOfCalendarDate(d);
  }

  /** Parsing is stable under formatting: a string that parses to a date is turned by
      format-then-parse into the very same date, so the formatted text is canonical. */
  lemma CanonicalFormIsStable(s: string)
    ensures var p := ParseDateStringToDate(s);
            ParseDateStringToDate(FormatDateToYMDString(Some(p))) == p
  {
    var p := ParseDateStringToDate(s);
    if p.DateOf? {
      ParseFormatRoundTrip(p.date);
    } else {
      var t := FormatDateToYMDString(Some(p));
      assert t == "NaN" + "-" + "NaN" + "-" + "NaN";
      assert !IsDigit(t[0]);
      SplitFirstPiece(t, '-');
    }
  }

  /** The `full-date` form of section 5.6 of RFC 3339: `YYYY-MM-DD` with a month from 01
      to 12 and a day that exists in that month. */
  predicate IsFullDate(s: string) {
    && |s| == 10
    && IsDigits(s[..4]) && s[4] == '-' && IsDigits(s[5..7]) && s[7] == '-' && IsDigits(s[8..])
    && 1 <= DigitsValue(s[5..7]) <= 12
    && 1 <= DigitsValue(s[8..]) <= DaysInMonth(DigitsValue(s[..4]), DigitsValue(s[5..7]) - 1)
  }

  lemma {:induction false} NatToStringLength(n: nat)
    ensures n < 10 ==> |NatToString(n)| == 1
    ensures 10 <= n < 100 ==> |NatToString(n)| == 2
    ensures 100 <= n < 1000 ==> |NatToString(n)| == 3
    ensures 1000 <= n < 10000 ==> |NatToString(n)| == 4
    decreases n
  {
    if n >= 10 {
      NatToStringLength(n / 10);
    }
  }

  /** Digit pieces of widths 4, 2 and 2 joined with `-` read back piece by piece. */
  lemma FullDateOfPieces(y: string, m: string, d: string)
    requires IsDigits(y) && IsDigits(m) && IsDigits(d)
    requires |y| == 4 && |m| == 2 && |d| == 2
    ensures var s := y + "-" + m + "-" + d;
            |s| == 10 && s[..4] == y && s[4] == '-' && s[5..7] == m && s[7] == '-' && s[8..] == d
  {
  }

  /** Digit pieces of the right widths and values form a full-date. */
  lemma FullDateOfValues(y: string, m: string, dd: string, year: int, month: int, day: int)
    requires IsDigits(y) && IsDigits(m) && IsDigits(dd)
    requires |y| == 4 && |m| == 2 && |dd| == 2
    requires DigitsValue(y) == year && DigitsValue(m) == month && DigitsValue(dd) == day
    requires 1 <= month <= 12 && 1 <= day <= DaysInMonth(year, month - 1)
    ensures IsFullDate(y + "-" + m + "-" + dd)
  {
    FullDateOfPieces(y, m, dd);
    var s := y + "-" + m + "-" + dd;
    assert s[..4] == y && s[5..7] == m && s[8..] == dd;
  }

  /** For a four-digit year, the formatted date is an RFC 3339 full-date naming the same day. */
  lemma FormattedDateIsFullDate(d: CalendarDate)
    requires 1000 <= d.year <= 9999
    ensures var s := FormatDateToYMDString(Some(DateOf(d)));
            IsFullDate(s) && DigitsValue(s[..4]) == d.year
            && DigitsValue(s[5..7]) == d.monthIndex + 1 && DigitsValue(s[8..]) == d.day
  {
    var y, m, dd := NatToString(d.year), Pad2(NatToString(d.monthIndex + 1)), Pad2(NatToString(d.day));
    var s := FormatDateToYMDString(Some(DateOf(d)));
    assert s == y + "-" + m + "-" + dd by { FormattedPieces(d); }
    FormattedDatePieces(d);
    FullDateOfValues(y, m, dd, d.year, d.monthIndex + 1, d.day);
    FullDateOfPieces(y, m, dd);
  }

  /** The year, month and day pieces of a formatted date with a four-digit year: widths
      4, 2 and 2, each reading back as its number. */
  lemma FormattedDatePieces(d: CalendarDate)
    requires 1000 <= d.year <= 9999
    ensures var y := NatToString(d.year);
            |y| == 4 && IsDigits(y) && DigitsValue(y) == d.year
    ensures var m := Pad2(NatToString(d.monthIndex + 1));
            |m| == 2 && IsDigits(m) && DigitsValue(m) == d.monthIndex + 1
    ensures var dd := Pad2(NatToString(d.day));
            |dd| == 2 && IsDigits(dd) && DigitsValue(dd) == d.day
  {
    NatToStringLength(d.year);
    NatToStringLength(d.monthIndex + 1);
    NatToStringLength(d.day);
    DigitsValueOfNatToString(d.year);
    PaddedNatReadsBack(d.monthIndex + 1);
    PaddedNatReadsBack(d.day);
  }

  // ---------------------------------------------------------------------------
  // formatIsoDateToBrDate
  // ---------------------------------------------------------------------------

  /** A destructured array element: `undefined` past the end, which a template string
      writes as `"undefined"`. */
  function PieceOrUndefined(parts: seq<string>, i: nat): string {
    if i < |parts| then parts[i] else "undefined"
  }

  /** `formatIsoDateToBrDate`: the first three `-`-separated pieces, reordered as day,
      month, year and joined with `/`. */
  function FormatIsoDateToBrDate(s: string): (r: string)
    ensures '-' !in s ==> r == "undefined/undefined/" + s
  {
    var parts := Split(s, '-');
    assert '-' !in s ==> parts == [s] by {
      if '-' !in s { SplitWithoutSeparator(s, '-'); }
    }
    PieceOrUndefined(parts, 2) + "/" + PieceOrUndefined(parts, 1) + "/" + PieceOrUndefined(parts, 0)
  }

  /** `Y-M-D` becomes `D/M/Y`, reusing the three pieces unchanged. */
  lemma IsoToBrReordersPieces(y: string, m: string, d: string)
    requires '-' !in y && '-' !in m && '-' !in d
    ensures FormatIsoDateToBrDate(y + "-" + m + "-" + d) == d + "/" + m + "/" + y
  {
    SplitThree(y, m, d);
  }

  /** A formatted date shown in the Brazilian order: day and month zero-padded, then the year. */
  lemma BrDateOfFormattedDate(d: CalendarDate)
    requires d.year >= 0
    ensures FormatIsoDateToBrDate(FormatDateToYMDString(Some(DateOf(d))))
         == Pad2(NatToString(d.day)) + "/" + Pad2(NatToString(d.monthIndex + 1)) + "/" + NatToString(d.year)
  {
    var y, m, dd := NatToString(d.year), Pad2(NatToString(d.monthIndex + 1)), Pad2(NatToString(d.day));
    FormattedPieces(d);
    PaddedNatReadsBack(d.monthIndex + 1);
    PaddedNatReadsBack(d.day);
    DigitsHaveNo(y, '-');
    DigitsHaveNo(m, '-');
    DigitsHaveNo(dd, '-');
    IsoToBrReordersPieces(y, m, dd);
  }

  // ---------------------------------------------------------------------------
  // parseShortStringToDateTime
  // ---------------------------------------------------------------------------

  /** `parseShortStringToDateTime`: `''` for `undefined` or the empty string; otherwise the
      comma-separated pieces year, 0-based month, day, hour and minute rendered as
      `DD/MM/YY hh:mm`, the month shifted up by one (NaN when it has no leading integer),
      the year cut to its last two characters. Fewer than five pieces make
      `undefined.padStart` throw. */
  function ParseShortStringToDateTime(dateStr: Option<string>): (r: Completion<string>)
    ensures dateStr.None? || dateStr == Some("") ==> r == Normal("")
    ensures dateStr.Some? && dateStr.value != "" ==> (r.Throw? <==> |Split(dateStr.value, ',')| < 5)
  {
    if dateStr.None? || dateStr.value == "" then Normal("")
    else
      var parts := Split(dateStr.value, ',');
      if |parts| < 5 then Throw else Normal(ShortTimestamp(parts))
  }

  /** The `DD/MM/YY hh:mm` text of the pieces year, 0-based month, day, hour and minute. */
  function ShortTimestamp(parts: seq<string>): string
    requires |parts| >= 5
  {
    var month := match ParseInt(parts[1]) {
      case Some(n) => IntToString(n + 1)
      case None => "NaN"
    };
    Pad2(parts[2]) + "/" + Pad2(month) + "/" + TakeLast(parts[0], 2) + " "
    + Pad2(parts[3]) + ":" + Pad2(parts[4])
  }

  /** Joining with commas is associative. */
  lemma Regroup(p: string, q: string, r: string)
    ensures p + "," + (q + "," + r) == p + "," + q + "," + r
  {
  }

  /** Five pieces free of commas, joined with commas, split back into those pieces. */
  lemma SplitFive(a: string, b: string, c: string, d: string, e: string)
    requires ',' !in a && ',' !in b && ',' !in c && ',' !in d && ',' !in e
    ensures Split(a + "," + b + "," + c + "," + d + "," + e, ',') == [a, b, c, d, e]
  {
    var t4 := d + "," + e;
    var t3 := c + "," + t4;
    var t2 := b + "," + t3;
    Regroup(a + "," + b + "," + c, d, e);
    Regroup(a + "," + b, c, t4);
    Regroup(a, b, t3);
    SplitWithoutSeparator(e, ',');
    SplitAtSeparator(d, e, ',');
    assert Split(t4, ',') == [d, e];
    SplitAtSeparator(c, t4, ',');
    assert Split(t3, ',') == [c, d, e];
    SplitAtSeparator(b, t3, ',');
    assert Split(t2, ',') == [b, c, d, e];
    SplitAtSeparator(a, t2, ',');
    assert [a] + [b, c, d, e] == [a, b, c, d, e];
  }

  /** The timestamp of five comma-free pieces whose month piece reads as the integer `month`. */
  lemma ShortDateTimeOfPieces(y: string, m: string, d: string, h: string, mi: string, month: int)
    requires ',' !in y && ',' !in m && ',' !in d && ',' !in h && ',' !in mi
    requires ParseInt(m) == Some(month)
    ensures ParseShortStringToDateTime(Some(y + "," + m + "," + d + "," + h + "," + mi))
         == Normal(Pad2(d) + "/" + Pad2(IntToString(month + 1)) + "/" + TakeLast(y, 2) + " " + Pad2(h) + ":" + Pad2(mi))
  {
    var s := y + "," + m + "," + d + "," + h + "," + mi;
    assert Split(s, ',') == [y, m, d, h, mi] by { SplitFive(y, m, d, h, mi); }
    assert s != "";
    ShortTimestampOfPieces(y, m, d, h, mi, month);
  }

  /** The timestamp of five pieces whose month piece reads as the integer `month`. */
  lemma ShortTimestampOfPieces(y: string, m: string, d: string, h: string, mi: string, month: int)
    requires ParseInt(m) == Some(month)
    ensures ShortTimestamp([y, m, d, h, mi])
         == Pad2(d) + "/" + Pad2(IntToString(month + 1)) + "/" + TakeLast(y, 2) + " " + Pad2(h) + ":" + Pad2(mi)
  {
    var parts := [y, m, d, h, mi];
    assert parts[0] == y && parts[1] == m && parts[2] == d && parts[3] == h && parts[4] == mi;
  }

  /** Five numerals joined with commas give the timestamp with the month numeral plus one. */
  lemma ShortDateTimeOfDigits(y: string, m: string, d: string, h: string, mi: string)
    requires IsDigits(y) && IsDigits(m) && IsDigits(d) && IsDigits(h) && IsDigits(mi) && |m| >= 1
    ensures ParseShortStringToDateTime(Some(y + "," + m + "," + d + "," + h + "," + mi))
         == Normal(Pad2(d) + "/" + Pad2(NatToString(DigitsValue(m) + 1)) + "/" + TakeLast(y, 2) + " " + Pad2(h) + ":" + Pad2(mi))
  {
    var month := DigitsValue(m);
    var text := y + "," + m + "," + d + "," + h + "," + mi;
    var shown := Pad2(d) + "/" + Pad2(IntToString(month + 1)) + "/" + TakeLast(y, 2) + " " + Pad2(h) + ":" + Pad2(mi);
    assert ParseShortStringToDateTime(Some(text)) == Normal(shown) by {
      DigitsHaveNo(y, ',');
      DigitsHaveNo(m, ',');
      DigitsHaveNo(d, ',');
      DigitsHaveNo(h, ',');
      DigitsHaveNo(mi, ',');
      ParseIntOfDigits(m);
      ShortDateTimeOfPieces(y, m, d, h, mi, month);
    }
    assert IntToString(month + 1) == NatToString(month + 1);
  }

  /** Where the five fields of `DD/MM/YY hh:mm` sit. */
  lemma ShortLayoutPositions(dd: string, mm: string, yy: string, hh: string, mi: string)
    requires |dd| == 2 && |mm| == 2 && |yy| == 2 && |hh| == 2 && |mi| == 2
    ensures var r := dd + "/" + mm + "/" + yy + " " + hh + ":" + mi;
            |r| == 14 && r[2] == '/' && r[5] == '/' && r[8] == ' ' && r[11] == ':'
            && r[0..2] == dd && r[3..5] == mm && r[6..8] == yy && r[9..11] == hh && r[12..14] == mi
  {
  }

  /** For numeric pieces (day, hour and minute of at most two digits, a month below 99)
      the result has the fixed layout `DD/MM/YY hh:mm` and each field reads back as the
      day, the month plus one, the last two characters of the year, the hour and the minute. */
  lemma ShortDateTimeLayout(y: string, m: string, d: string, h: string, mi: string)
    requires IsDigits(y) && IsDigits(m) && IsDigits(d) && IsDigits(h) && IsDigits(mi)
    requires |y| >= 2 && |m| >= 1 && |d| <= 2 && |h| <= 2 && |mi| <= 2
    requires DigitsValue(m) < 99
    ensures var r := ParseShortStringToDateTime(Some(y + "," + m + "," + d + "," + h + "," + mi));
            && r.Normal? && |r.value| == 14
            && r.value[2] == '/' && r.value[5] == '/' && r.value[8] == ' ' && r.value[11] == ':'
            && IsDigits(r.value[0..2]) && DigitsValue(r.value[0..2]) == DigitsValue(d)
            && IsDigits(r.value[3..5]) && DigitsValue(r.value[3..5]) == DigitsValue(m) + 1
            && r.value[6..8] == y[|y| - 2..]
            && IsDigits(r.value[9..11]) && DigitsValue(r.value[9..11]) == DigitsValue(h)
            && IsDigits(r.value[12..14]) && DigitsValue(r.value[12..14]) == DigitsValue(mi)
  {
    var month := DigitsValue(m) + 1;
    DigitsHaveNo(y, ',');
    DigitsHaveNo(m, ',');
    DigitsHaveNo(d, ',');
    DigitsHaveNo(h, ',');
    DigitsHaveNo(mi, ',');
    ParseIntOfDigits(m);
    ShortDateTimeOfPieces(y, m, d, h, mi, DigitsValue(m));
    NatToStringLength(month);
    PaddedNatReadsBack(month);
    PadStartKeepsValue(d, 2);
    PadStartKeepsValue(h, 2);
    PadStartKeepsValue(mi, 2);
    ShortLayoutPositions(Pad2(d), Pad2(NatToString(month)), TakeLast(y, 2), Pad2(h), Pad2(mi));
  }

  // ---------------------------------------------------------------------------
  // String(date): Date.prototype.toString
  // ---------------------------------------------------------------------------

  /** The host's local time zone (the UTC-3 of `MidnightTimeValue`) as `Date.prototype.toString` prints it. */
  const LocalTimeZone: string := "GMT-0300 (Horário Padrão de Brasília)"

  /** Day of the week, 0 for Sunday (Sakamoto's method, valid for the Gregorian calendar). */
  function Weekday(d: CalendarDate): (w: nat)
    ensures w < 7
  {
    var offsets := [0, 3, 2, 5, 0, 3, 5, 1, 4, 6, 2, 4];
    var y := if d.monthIndex < 2 then d.year - 1 else d.year;
    (y + y / 4 - y / 100 + y / 400 + offsets[d.monthIndex] + d.day) % 7
  }

  function WeekdayName(w: nat): (s: string)
    requires w < 7
    ensures |s| == 3 && 'A' <= s[0] <= 'Z'
  {
    if w == 0 then "Sun" else if w == 1 then "Mon" else if w == 2 then "Tue"
    else if w == 3 then "Wed" else if w == 4 then "Thu" else if w == 5 then "Fri" else "Sat"
  }

  function MonthName(m: nat): (s: string)
    requires m < 12
    ensures |s| == 3 && 'A' <= s[0] <= 'Z'
  {
    if m == 0 then "Jan" else if m == 1 then "Feb" else if m == 2 then "Mar"
    else if m == 3 then "Apr" else if m == 4 then "May" else if m == 5 then "Jun"
    else if m == 6 then "Jul" else if m == 7 then "Aug" else if m == 8 then "Sep"
    else if m == 9 then "Oct" else if m == 10 then "Nov" else "Dec"
  }

  /** `String(date)`: `"Invalid Date"`, or `Www Mmm DD YYYY 00:00:00 <zone>` for a local
      midnight (the year at least four digits, with a sign when negative). */
  function DateToString(d: JsDate): (s: string)
    ensures s != [] && 'A' <= s[0] <= 'Z'
  {
    match d
    case InvalidDate => "Invalid Date"
    case DateOf(x) =>
      var year := (if x.year < 0 then "-" else "") + PadStart(NatToString(if x.year < 0 then -x.year else x.year), 4, '0');
      WeekdayName(Weekday(x)) + " " + MonthName(x.monthIndex) + " " + Pad2(NatToString(x.day)) + " "
        + year + " 00:00:00 " + LocalTimeZone
  }

  /** A string that starts with a letter never parses to a date: its first `-` piece is
      not a number. */
  lemma LetterLedStringIsNoDate(s: string)
    requires s != [] && 'A' <= s[0] <= 'Z'
    ensures ParseDateStringToDate(s) == InvalidDate
  {
    SplitFirstPiece(s, '-');
    var first := Split(s, '-')[0];
    assert !IsDigit(first[0]);
  }

  /** Hence `parseDateStringToDate(String(date))` is Invalid Date for every `Date` object. */
  lemma DateStringIsNoDate(d: JsDate)
    ensures ParseDateStringToDate(DateToString(d)) == InvalidDate
  {
    LetterLedStringIsNoDate(DateToString(d));
  }

  /** The decimal numerals used in the example below, one digit at a time. */
  lemma Numeral20()
    ensures NatToString(20) == "20"
  {
    assert NatToString(2) == "2";
  }

  lemma Numeral2024()
    ensures NatToString(2024) == "2024"
  {
    Numeral20();
    assert NatToString(202) == "202";
  }

  /** A single character is padded with one leading zero. */
  lemma Pad2OfSingle(c: char)
    ensures Pad2([c]) == ['0', c]
  {
    assert Repeat('0', 1) == ['0'];
  }

  /** `2024-3-5` is read as 5 March 2024. */
  lemma LooseDateParses()
    ensures ParseDateStringToDate("2024-3-5") == DateOf(Date(2024, 2, 5))
  {
    Numeral2024();
    assert NatToString(3) == "3";
    assert NatToString(5) == "5";
    DigitsValueOfNatToString(2024);
    DigitsValueOfNatToString(3);
    DigitsValueOfNatToString(5);
    ParseOfDigitPieces(NatToString(2024), NatToString(3), NatToString(5), 2024, 3, 5);
    assert "2024" + "-" + "3" + "-" + "5" == "2024-3-5";
    assert ValidDate(Date(2024, 2, 5));
  }

  /** 5 March 2024 is written `2024-03-05`. */
  lemma ExampleDateFormats()
    ensures FormatDateToYMDString(Some(DateOf(Date(2024, 2, 5)))) == "2024-03-05"
  {
    var d: CalendarDate := Date(2024, 2, 5);
    FormattedPieces(d);
    Numeral2024();
    assert NatToString(3) == "3";
    assert NatToString(5) == "5";
    Pad2OfSingle('3');
    Pad2OfSingle('5');
  }

  /** The loosely typed `2024-3-5` is committed as the canonical `2024-03-05`. */
  lemma LooseDateIsCanonicalised()
    ensures FormatDateToYMDString(Some(ParseDateStringToDate("2024-3-5"))) == "2024-03-05"
  {
    LooseDateParses();
    ExampleDateFormats();
  }
}
