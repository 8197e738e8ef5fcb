/**
 * Date utilities of the CLI: the two supported input formats, input
 * validation, and the "last 30 days" range. The clock is a parameter.
 */
module Dates {
  import opened Wrappers
  import opened Text

  /** A proleptic Gregorian calendar date, as Python's `datetime.date`. */
  datatype Date = Date(year: int, month: int, day: int)

  predicate IsLeapYear(y: int) {
    y % 4 == 0 && (y % 100 != 0 || y % 400 == 0)
  }

  function DaysInMonth(y: int, m: int): int {
    if m == 2 then (if IsLeapYear(y) then 29 else 28)
    else if m == 4 || m == 6 || m == 9 || m == 11 then 30
    else 31
  }

  /** `datetime.date` accepts years 1 to 9999 and the days of each month. */
  predicate ValidDate(d: Date) {
    1 <= d.year <= 9999 && 1 <= d.month <= 12 && 1 <= d.day <= DaysInMonth(d.year, d.month)
  }

  // ---------------------------------------------------------------------
  // Fixed-width decimal fields
  // ---------------------------------------------------------------------

  /** `n` written with exactly `width` digits, zero-padded (`%04d`, `%02d`). */
  function Digits(n: nat, width: nat): (r: string)
    ensures |r| == width && AllDigits(r)
    decreases width
  {
    if width == 0 then "" else Digits(n / 10, width - 1) + [DigitChar(n % 10)]
  }

  /** Reading a fixed-width field and printing it back at the same width gives the field. */
  lemma {:induction false} DigitsOfValue(t: string)
    requires AllDigits(t)
    ensures Digits(DigitsValue(t), |t|) == t
    decreases |t|
  {
    if |t| > 0 {
      var init := t[..|t| - 1];
      var v := DigitsValue(t);
      assert v / 10 == DigitsValue(init);
      assert v % 10 == t[|t| - 1] as int - '0' as int;
      DigitsOfValue(init);
      assert t == init + [t[|t| - 1]];
    }
  }

  /** Printing a value that fits and reading it back gives the value. */
  lemma {:induction false} ValueOfDigits(n: nat, width: nat)
    requires n < Pow10(width)
    ensures DigitsValue(Digits(n, width)) == n
    decreases width
  {
    if width > 0 {
      var s := Digits(n, width);
      assert s[..|s| - 1] == Digits(n / 10, width - 1);
      ValueOfDigits(n / 10, width - 1);
    }
  }

  // ---------------------------------------------------------------------
  // The two supported formats
  // ---------------------------------------------------------------------

  /** `"%Y-%m-%d"` and `"%Y%m%d"`, in their fixed-width form. */
  datatype DateFormat = DashedFormat | CompactFormat

  /** The formats in the order they are tried. */
  const SupportedDateFormats: seq<DateFormat> := [DashedFormat, CompactFormat]

  /** `d.strftime(fmt)`. */
  function Format(fmt: DateFormat, d: Date): string
    requires ValidDate(d)
  {
    match fmt
    case DashedFormat => Digits(d.year, 4) + "-" + Digits(d.month, 2) + "-" + Digits(d.day, 2)
    case CompactFormat => Digits(d.year, 4) + Digits(d.month, 2) + Digits(d.day, 2)
  }

  /** A dashed string of digit fields is the dashed printing of its field values. */
  lemma DashedFields(s: string)
    requires |s| == 10 && s[4] == '-' && s[7] == '-'
    requires AllDigits(s[..4]) && AllDigits(s[5..7]) && AllDigits(s[8..])
    ensures s == Digits(DigitsValue(s[..4]), 4) + "-" + Digits(DigitsValue(s[5..7]), 2) + "-" + Digits(DigitsValue(s[8..]), 2)
  {
    DigitsOfValue(s[..4]);
    DigitsOfValue(s[5..7]);
    DigitsOfValue(s[8..]);
    assert s == s[..4] + "-" + s[5..7] + "-" + s[8..];
  }

  /** A compact string of eight digits is the compact printing of its field values. */
  lemma CompactFields(s: string)
    requires |s| == 8 && AllDigits(s)
    ensures AllDigits(s[..4]) && AllDigits(s[4..6]) && AllDigits(s[6..])
    ensures s == Digits(DigitsValue(s[..4]), 4) + Digits(DigitsValue(s[4..6]), 2) + Digits(DigitsValue(s[6..]), 2)
  {
    assert forall k :: 0 <= k < 4 ==> s[..4][k] == s[k];
    assert forall k :: 0 <= k < 2 ==> s[4..6][k] == s[4 + k] && s[6..][k] == s[6 + k];
    DigitsOfValue(s[..4]);
    DigitsOfValue(s[4..6]);
    DigitsOfValue(s[6..]);
    assert s == s[..4] + s[4..6] + s[6..];
  }

  /**
   * `datetime.strptime(s, fmt).date()`, `None` for its `ValueError`.
   * Whatever it accepts is exactly the formatting of a valid date.
   */
  function ParseWith(fmt: DateFormat, s: string): (r: Option<Date>)
    ensures r.Some? ==> ValidDate(r.value) && s == Format(fmt, r.value)
  {
    match fmt
    case DashedFormat =>
      if |s| == 10 && s[4] == '-' && s[7] == '-'
         && AllDigits(s[..4]) && AllDigits(s[5..7]) && AllDigits(s[8..]) then
        var d := Date(DigitsValue(s[..4]), DigitsValue(s[5..7]), DigitsValue(s[8..]));
        if ValidDate(d) then
          DashedFields(s);
          Some(d)
        else None
      else None
    case CompactFormat =>
      if |s| == 8 && AllDigits(s) then
        var d := Date(DigitsValue(s[..4]), DigitsValue(s[4..6]), DigitsValue(s[6..]));
        if ValidDate(d) then
          CompactFields(s);
          Some(d)
        else None
      else None
  }

  /** Every valid date, formatted in a supported format, parses back to itself. */
  lemma ParseFormatRoundTrip(fmt: DateFormat, d: Date)
    requires ValidDate(d)
    ensures ParseWith(fmt, Format(fmt, d)) == Some(d)
  {
    var y, m, dd := Digits(d.year, 4), Digits(d.month, 2), Digits(d.day, 2);
    ValueOfDigits(d.year, 4);
    ValueOfDigits(d.month, 2);
    ValueOfDigits(d.day, 2);
    var s := Format(fmt, d);
    match fmt
    case DashedFormat =>
      assert s[..4] == y && s[5..7] == m && s[8..] == dd;
    case CompactFormat =>
      assert s[..4] == y && s[4..6] == m && s[6..] == dd;
  }

  /** The `for fmt in formats: try ... except: continue` scan, then the final `raise`. */
  function ParseFirst(formats: seq<DateFormat>, s: string): Result<Date, string>
    decreases |formats|
  {
    if formats == [] then Failure("Unsupported date format: " + s)
    else match ParseWith(formats[0], s)
      case Some(d) => Success(d)
      case None => ParseFirst(formats[1..], s)
  }

  /** `parse_supported_date`. */
  method ParseSupportedDate(s: string) returns (r: Result<Date, string>)
    ensures r.Success? ==> ValidDate(r.value)
    ensures r.Success? ==> ParseWith(DashedFormat, s) == Some(r.value)
                           || (ParseWith(DashedFormat, s).None? && ParseWith(CompactFormat, s) == Some(r.value))
    ensures r.Failure? <==> ParseWith(DashedFormat, s).None? && ParseWith(CompactFormat, s).None?
    ensures r.Failure? ==> r.error == "Unsupported date format: " + s
    ensures r == ParseFirst(SupportedDateFormats, s)
  {
    var i := 0;
    while i < |SupportedDateFormats|
      invariant 0 <= i <= |SupportedDateFormats|
      invariant forall k :: 0 <= k < i ==> ParseWith(SupportedDateFormats[k], s).None?
      invariant ParseFirst(SupportedDateFormats, s) == ParseFirst(SupportedDateFormats[i..], s)
    {
      var parsed := ParseWith(SupportedDateFormats[i], s);
      if parsed.Some? {
        return Success(parsed.value);
      }
      i := i + 1;
    }
    r := Failure("Unsupported date format: " + s);
  }

  /** A date printed in either supported format is accepted, as that date. */
  lemma ParseSupportedOfFormat(fmt: DateFormat, d: Date)
    requires ValidDate(d)
    ensures ParseFirst(SupportedDateFormats, Format(fmt, d)) == Success(d)
  {
    ParseFormatRoundTrip(fmt, d);
    ParseFormatRoundTrip(DashedFormat, d);
    if fmt == CompactFormat {
      assert |Format(fmt, d)| == 8;
    }
  }

  /** A string `parse_supported_date` accepts is one of the two formattings of its date. */
  lemma ParseSupportedFormats(s: string)
    requires ParseFirst(SupportedDateFormats, s).Success?
    ensures var d := ParseFirst(SupportedDateFormats, s).value;
            ValidDate(d) && (s == Format(DashedFormat, d) || s == Format(CompactFormat, d))
  {
    assert SupportedDateFormats[1..] == [CompactFormat];
    assert SupportedDateFormats[1..][1..] == [];
  }

  /**
   * `validate_date_input(date_str, default_today)`, with `date.today()` as
   * `today`. Returned strings are never rewritten and always parse.
   */
  function ValidateDateInput(dateStr: Option<string>, defaultToday: bool, today: Date): (r: Option<string>)
    requires ValidDate(today)
    ensures (dateStr.None? || dateStr.value == "") ==>
              r == (if defaultToday then Some(Format(DashedFormat, today)) else None)
    ensures dateStr.Some? && dateStr.value != "" ==>
              (r.Some? <==> ParseFirst(SupportedDateFormats, dateStr.value).Success?)
    ensures r.Some? && dateStr.Some? && dateStr.value != "" ==> r == dateStr
    ensures r.Some? ==> ParseFirst(SupportedDateFormats, r.value).Success?
  {
    if dateStr.None? || dateStr.value == "" then
      if defaultToday then
        ParseSupportedOfFormat(DashedFormat, today);
        Some(Format(DashedFormat, today))
      else None
    else if ParseFirst(SupportedDateFormats, dateStr.value).Success? then dateStr
    else None
  }

  // ---------------------------------------------------------------------
  // Day arithmetic: `date - timedelta(days=n)`
  // ---------------------------------------------------------------------

  function DaysInYear(y: int): int {
    if IsLeapYear(y) then 366 else 365
  }

  function DaysBeforeYear(y: int): (r: nat)
    ensures y > 1 ==> r > 0
    decreases y
  {
    if y <= 1 then 0 else DaysBeforeYear(y - 1) + DaysInYear(y - 1)
  }

  function DaysBeforeMonth(y: int, m: int): (r: nat)
    ensures m > 1 ==> r > 0
    decreases m
  {
    if m <= 1 then 0 else DaysBeforeMonth(y, m - 1) + DaysInMonth(y, m - 1)
  }

  /** Days since 0001-01-01, that is `d.toordinal() - 1`. */
  function DayNumber(d: Date): int
    requires ValidDate(d)
  {
    DaysBeforeYear(d.year) + DaysBeforeMonth(d.year, d.month) + d.day - 1
  }

  lemma DaysBeforeDecember(y: int)
    ensures DaysBeforeMonth(y, 12) + 31 == DaysInYear(y)
  {
    assert DaysBeforeMonth(y, 2) == 31;
    assert DaysBeforeMonth(y, 3) == 31 + DaysInMonth(y, 2);
    assert DaysBeforeMonth(y, 4) == 62 + DaysInMonth(y, 2);
    assert DaysBeforeMonth(y, 5) == 92 + DaysInMonth(y, 2);
    assert DaysBeforeMonth(y, 6) == 123 + DaysInMonth(y, 2);
    assert DaysBeforeMonth(y, 7) == 153 + DaysInMonth(y, 2);
    assert DaysBeforeMonth(y, 8) == 184 + DaysInMonth(y, 2);
    assert DaysBeforeMonth(y, 9) == 215 + DaysInMonth(y, 2);
    assert DaysBeforeMonth(y, 10) == 245 + DaysInMonth(y, 2);
    assert DaysBeforeMonth(y, 11) == 276 + DaysInMonth(y, 2);
  }

  /** The last day of the previous month is the day before the first of a month. */
  lemma LastOfPreviousMonth(d: Date)
    requires ValidDate(d) && d.day == 1 && d.month > 1
    ensures var p := Date(d.year, d.month - 1, DaysInMonth(d.year, d.month - 1));
            ValidDate(p) && DayNumber(p) == DayNumber(d) - 1
  {
    assert DaysBeforeMonth(d.year, d.month) == DaysBeforeMonth(d.year, d.month - 1) + DaysInMonth(d.year, d.month - 1);
  }

  /** New Year's Eve is the day before January 1st. */
  lemma LastOfPreviousYear(d: Date)
    requires ValidDate(d) && d.day == 1 && d.month == 1 && d.year > 1
    ensures ValidDate(Date(d.year - 1, 12, 31)) && DayNumber(Date(d.year - 1, 12, 31)) == DayNumber(d) - 1
  {
    DaysBeforeDecember(d.year - 1);
    assert DaysBeforeYear(d.year) == DaysBeforeYear(d.year - 1) + DaysInYear(d.year - 1);
  }

  lemma {:induction false} DaysBeforeMonthGrows(y: int, m: int, n: int)
    requires 1 <= m < n
    ensures DaysBeforeMonth(y, m) + DaysInMonth(y, m) <= DaysBeforeMonth(y, n)
    decreases n
  {
    if m < n - 1 {
      DaysBeforeMonthGrows(y, m, n - 1);
    }
  }

  lemma {:induction false} DaysBeforeYearGrows(a: int, b: int)
    requires 1 <= a < b
    ensures DaysBeforeYear(a) + DaysInYear(a) <= DaysBeforeYear(b)
    decreases b
  {
    if a < b - 1 {
      DaysBeforeYearGrows(a, b - 1);
    }
  }

  /** The days of a year up to and including `d` fit in that year. */
  lemma DayOfYearBound(d: Date)
    requires ValidDate(d)
    ensures DaysBeforeMonth(d.year, d.month) + d.day <= DaysInYear(d.year)
  {
    DaysBeforeDecember(d.year);
    if d.month < 12 {
      DaysBeforeMonthGrows(d.year, d.month, 12);
    }
  }

  /** Calendar order, year first. */
  predicate Precedes(d1: Date, d2: Date) {
    d1.year < d2.year || (d1.year == d2.year && (d1.month < d2.month || (d1.month == d2.month && d1.day < d2.day)))
  }

  /** Day numbers follow calendar order. */
  lemma DayNumberOrder(d1: Date, d2: Date)
    requires ValidDate(d1) && ValidDate(d2)
    ensures Precedes(d1, d2) ==> DayNumber(d1) < DayNumber(d2)
  {
    if d1.year < d2.year {
      DayOfYearBound(d1);
      DaysBeforeYearGrows(d1.year, d2.year);
    } else if d1.year == d2.year && d1.month < d2.month {
      DaysBeforeMonthGrows(d1.year, d1.month, d2.month);
    }
  }

  /** A valid date is determined by its day number. */
  lemma DayNumberInjective(d1: Date, d2: Date)
    requires ValidDate(d1) && ValidDate(d2) && DayNumber(d1) == DayNumber(d2)
    ensures d1 == d2
  {
    DayNumberOrder(d1, d2);
    DayNumberOrder(d2, d1);
  }

  /** The day before `d`; `None` for 0001-01-01, where `date` arithmetic overflows. */
  function PrevDay(d: Date): (r: Option<Date>)
    requires ValidDate(d)
    ensures r.None? <==> d == Date(1, 1, 1)
    ensures r.Some? ==> ValidDate(r.value)
  {
    if d.day > 1 then Some(Date(d.year, d.month, d.day - 1))
    else if d.month > 1 then Some(Date(d.year, d.month - 1, DaysInMonth(d.year, d.month - 1)))
    else if d.year > 1 then Some(Date(d.year - 1, 12, 31))
    else None
  }

  /** The day before is one day number earlier. */
  lemma PrevDayCount(d: Date)
    requires ValidDate(d) && PrevDay(d).Some?
    ensures DayNumber(PrevDay(d).value) == DayNumber(d) - 1
  {
    if d.day == 1 && d.month > 1 {
      LastOfPreviousMonth(d);
    } else if d.day == 1 {
      LastOfPreviousYear(d);
    }
  }

  /** `d - timedelta(days=n)`; `None` for its `OverflowError`. */
  function MinusDays(d: Date, n: nat): (r: Option<Date>)
    requires ValidDate(d)
    ensures r.Some? ==> ValidDate(r.value)
    decreases n
  {
    if n == 0 then Some(d)
    else match PrevDay(d)
      case None => None
      case Some(p) => MinusDays(p, n - 1)
  }

  /** `d - timedelta(days=n)` overflows exactly when fewer than `n` days precede `d`; otherwise it is `n` days earlier. */
  lemma {:induction false} MinusDaysCount(d: Date, n: nat)
    requires ValidDate(d)
    ensures MinusDays(d, n).None? <==> DayNumber(d) < n
    ensures MinusDays(d, n).Some? ==> DayNumber(MinusDays(d, n).value) == DayNumber(d) - n
    decreases n
  {
    if n > 0 {
      if PrevDay(d).Some? {
        PrevDayCount(d);
        MinusDaysCount(PrevDay(d).value, n - 1);
      } else {
        assert DayNumber(Date(1, 1, 1)) == 0;
      }
    }
  }

  /** From a day that has a predecessor, going back `n > 0` days is going back `n - 1` days from the day before. */
  lemma MinusDaysStep(d: Date, n: nat)
    requires ValidDate(d) && n > 0 && MinusDays(d, n).Some?
    ensures PrevDay(d).Some? && MinusDays(d, n) == MinusDays(PrevDay(d).value, n - 1)
  {
  }

  /** Going back `a + b` days is going back `a` days, then `b`. */
  lemma {:induction false} MinusDaysCompose(d: Date, a: nat, b: nat)
    requires ValidDate(d) && MinusDays(d, a).Some?
    ensures MinusDays(d, a + b) == MinusDays(MinusDays(d, a).value, b)
    decreases a
  {
    if a > 0 {
      MinusDaysStep(d, a);
      var p := PrevDay(d).value;
      assert MinusDays(d, a + b) == MinusDays(p, a + b - 1);
      MinusDaysCompose(p, a - 1, b);
    }
  }

  /** The tuple `get_last30days` returns. */
  datatype DateRange = DateRange(dateOption: string, start: Date, end: Date, segment: string)

  /** `get_last30days()`, with `date.today()` as `today`. */
  function GetLast30Days(today: Date): (r: Result<DateRange, string>)
    requires ValidDate(today)
    ensures r.Failure? <==> DayNumber(today) < 30
    ensures r.Success? ==>
              && r.value.dateOption == "Date range" && r.value.segment == "date"
              && ValidDate(r.value.start) && ValidDate(r.value.end)
              && DayNumber(r.value.start) == DayNumber(today) - 30
              && DayNumber(r.value.end) == DayNumber(today) - 1
    ensures r.Success? ==> MinusDays(today, 30) == Some(r.value.start) && MinusDays(today, 1) == Some(r.value.end)
  {
    MinusDaysCount(today, 30);
    MinusDaysCount(today, 1);
    match MinusDays(today, 30)
    case None => Failure("date value out of range")
    case Some(start) =>
      match MinusDays(today, 1)
      case None => Failure("date value out of range")
      case Some(end) => Success(DateRange("Date range", start, end, "date"))
  }

  /** The range's ends are the only valid dates 30 and 1 days before today. */
  lemma Last30DaysUnique(today: Date, start: Date, end: Date)
    requires ValidDate(today) && ValidDate(start) && ValidDate(end)
    requires DayNumber(start) == DayNumber(today) - 30 && DayNumber(end) == DayNumber(today) - 1
    ensures GetLast30Days(today) == Success(DateRange("Date range", start, end, "date"))
  {
    var r := GetLast30Days(today);
    DayNumberInjective(start, r.value.start);
    DayNumberInjective(end, r.value.end);
  }

  /** The range's start lies exactly 29 days before its end. */
  lemma Last30DaysSpan(today: Date)
    requires ValidDate(today) && GetLast30Days(today).Success?
    ensures MinusDays(GetLast30Days(today).value.end, 29) == Some(GetLast30Days(today).value.start)
  {
    MinusDaysCompose(today, 1, 29);
  }
}
