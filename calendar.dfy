/**
 * Calendar dates as the streak logic handles them: fmtDate writes a local
 * date as YYYY-MM-DD, parseDate reads such a string back as a local midnight,
 * and daysBetween counts the calendar days between the midnights of two
 * dates. Days are numbered in the proleptic Gregorian calendar.
 */
module Calendar {
  import opened Wrappers
  import opened Text

  /**
   * A local calendar date, month 1..12 as written in YYYY-MM-DD. Like the
   * arguments of JavaScript's Date constructor, a month or day outside its
   * range rolls over into the neighbouring months and years (see DayNumber).
   */
  datatype Date = Date(year: int, month: int, day: int)

  /** A local clock reading: its calendar date and the milliseconds since that date's midnight. */
  datatype Instant = Instant(date: Date, msOfDay: nat)

  predicate IsLeapYear(y: int) {
    y % 4 == 0 && (y % 100 != 0 || y % 400 == 0)
  }

  function YearDays(y: int): int {
    if IsLeapYear(y) then 366 else 365
  }

  function DaysInMonth(y: int, m: int): int
    requires 1 <= m <= 12
  {
    if m == 2 then (if IsLeapYear(y) then 29 else 28)
    else if m == 4 || m == 6 || m == 9 || m == 11 then 30
    else 31
  }

  /** A date whose month and day are in range, as every date read from the clock is. */
  predicate ValidDate(d: Date) {
    1 <= d.month <= 12 && 1 <= d.day <= DaysInMonth(d.year, d.month)
  }

  /** The leap years from year 0 up to but excluding y (counted negatively below 0). */
  function LeapYearsBefore(y: int): int {
    (y + 3) / 4 - (y + 99) / 100 + (y + 399) / 400
  }

  /** Days from 1 January of year 0 to 1 January of year y. */
  function DaysBeforeYear(y: int): int {
    365 * y + LeapYearsBefore(y)
  }

  /** Days from 1 January to the first day of month m of year y. */
  function DaysBeforeMonth(y: int, m: int): int
    requires 1 <= m <= 12
  {
    var common :=
      if m == 1 then 0 else if m == 2 then 31 else if m == 3 then 59
      else if m == 4 then 90 else if m == 5 then 120 else if m == 6 then 151
      else if m == 7 then 181 else if m == 8 then 212 else if m == 9 then 243
      else if m == 10 then 273 else if m == 11 then 304 else 334;
    common + (if m > 2 && IsLeapYear(y) then 1 else 0)
  }

  /**
   * The day number of the local midnight of (year, month, day), the year
   * taken as it is: the month first carries whole years, then the day counts
   * on from the first of that month, so day 0 is the last day of the month
   * before. This is new Date(year, month - 1, day) for years from 100 on; the
   * shift of years 0 to 99 to 1900 + year is applied in DateOf.
   */
  function DayNumber(d: Date): int {
    var monthIndex := d.month - 1;
    var y := d.year + monthIndex / 12;
    var m := monthIndex % 12 + 1;
    DaysBeforeYear(y) + DaysBeforeMonth(y, m) + d.day - 1
  }

  /**
   * daysBetween(a, b): both instants are first cut back to their midnights,
   * then the difference is counted in whole days.
   */
  function DaysBetween(a: Instant, b: Instant): int {
    DayNumber(b.date) - DayNumber(a.date)
  }

  /** The calendar day after d: an independent statement of what "consecutive dates" means. */
  function NextDay(d: Date): (n: Date)
    requires ValidDate(d)
    ensures ValidDate(n)
  {
    if d.day < DaysInMonth(d.year, d.month) then Date(d.year, d.month, d.day + 1)
    else if d.month < 12 then Date(d.year, d.month + 1, 1)
    else Date(d.year + 1, 1, 1)
  }

  // ---------------------------------------------------------------- the day count

  lemma YearLength(y: int)
    ensures DaysBeforeYear(y + 1) == DaysBeforeYear(y) + YearDays(y)
  {
    Step4(y);
    Step100(y);
    Step400(y);
    MultiplesNest(y);
    assert LeapYearsBefore(y + 1) - LeapYearsBefore(y) == if IsLeapYear(y) then 1 else 0;
  }

  lemma MultiplesNest(y: int)
    ensures y % 400 == 0 ==> y % 100 == 0
    ensures y % 100 == 0 ==> y % 4 == 0
  {
    if y % 400 == 0 {
      Nest400(y);
    }
    if y % 100 == 0 {
      Nest100(y);
    }
  }

  lemma Nest400(y: int)
    requires y % 400 == 0
    ensures y % 100 == 0
  {
    var k := y / 400;
    assert y == 100 * (4 * k);
  }

  lemma Nest100(y: int)
    requires y % 100 == 0
    ensures y % 4 == 0
  {
    var k := y / 100;
    assert y == 4 * (25 * k);
  }

  // One more year adds one to each ceiling quotient of LeapYearsBefore exactly at its multiples.

  lemma Step4(y: int)
    ensures (y + 4) / 4 - (y + 3) / 4 == if y % 4 == 0 then 1 else 0
  {
    var q, r := y / 4, y % 4;
    assert y + 4 == 4 * (q + 1) + r;
    assert y + 3 == 4 * (if r == 0 then q else q + 1) + (if r == 0 then 3 else r - 1);
  }

  lemma Step100(y: int)
    ensures (y + 100) / 100 - (y + 99) / 100 == if y % 100 == 0 then 1 else 0
  {
    var q, r := y / 100, y % 100;
    assert y + 100 == 100 * (q + 1) + r;
    assert y + 99 == 100 * (if r == 0 then q else q + 1) + (if r == 0 then 99 else r - 1);
  }

  lemma Step400(y: int)
    ensures (y + 400) / 400 - (y + 399) / 400 == if y % 400 == 0 then 1 else 0
  {
    var q, r := y / 400, y % 400;
    assert y + 400 == 400 * (q + 1) + r;
    assert y + 399 == 400 * (if r == 0 then q else q + 1) + (if r == 0 then 399 else r - 1);
  }

  lemma MonthLength(y: int, m: int)
    requires 1 <= m <= 12
    ensures m < 12 ==> DaysBeforeMonth(y, m + 1) == DaysBeforeMonth(y, m) + DaysInMonth(y, m)
    ensures m == 12 ==> DaysBeforeMonth(y, m) + DaysInMonth(y, m) == YearDays(y)
  {}

  /** Later months start later, and a month ends no later than the next one starts. */
  lemma MonthsOrdered(y: int, m1: int, m2: int)
    requires 1 <= m1 < m2 <= 12
    ensures DaysBeforeMonth(y, m1) + DaysInMonth(y, m1) <= DaysBeforeMonth(y, m2)
  {}

  lemma {:induction false} YearsOrdered(y1: int, y2: int)
    requires y1 <= y2
    ensures DaysBeforeYear(y1) + 365 * (y2 - y1) <= DaysBeforeYear(y2)
    decreases y2 - y1
  {
    if y1 < y2 {
      YearsOrdered(y1 + 1, y2);
      YearLength(y1);
    }
  }

  /** For a date in range nothing rolls over, and its day number lies within its year. */
  lemma ValidDayNumber(d: Date)
    requires ValidDate(d)
    ensures DayNumber(d) == DaysBeforeYear(d.year) + DaysBeforeMonth(d.year, d.month) + d.day - 1
    ensures DaysBeforeYear(d.year) <= DayNumber(d) < DaysBeforeYear(d.year + 1)
  {
    if d.month < 12 {
      MonthsOrdered(d.year, d.month, 12);
    }
    MonthLength(d.year, 12);
    YearLength(d.year);
  }

  /** Distinct dates in range have distinct day numbers. */
  lemma DayNumberInjective(a: Date, b: Date)
    requires ValidDate(a) && ValidDate(b) && DayNumber(a) == DayNumber(b)
    ensures a == b
  {
    if a != b {
      if Before(a, b) {
        DayNumberIncreasing(a, b);
      } else {
        DayNumberIncreasing(b, a);
      }
    }
  }

  /** a comes strictly before b in (year, month, day) order. */
  predicate Before(a: Date, b: Date) {
    a.year < b.year || (a.year == b.year && (a.month < b.month || (a.month == b.month && a.day < b.day)))
  }

  /** Day numbers follow the calendar order of the dates in range. */
  lemma DayNumberIncreasing(a: Date, b: Date)
    requires ValidDate(a) && ValidDate(b) && Before(a, b)
    ensures DayNumber(a) < DayNumber(b)
  {
    if a.year < b.year {
      LaterYear(a, b);
    } else if a.month < b.month {
      LaterMonth(a, b);
    } else {
      ValidDayNumber(a);
      ValidDayNumber(b);
    }
  }

  lemma LaterYear(a: Date, b: Date)
    requires ValidDate(a) && ValidDate(b) && a.year < b.year
    ensures DayNumber(a) < DayNumber(b)
  {
    ValidDayNumber(a);
    ValidDayNumber(b);
    YearsOrdered(a.year + 1, b.year);
  }

  lemma LaterMonth(a: Date, b: Date)
    requires ValidDate(a) && ValidDate(b) && a.year == b.year && a.month < b.month
    ensures DayNumber(a) < DayNumber(b)
  {
    ValidDayNumber(a);
    ValidDayNumber(b);
    MonthsOrdered(a.year, a.month, b.month);
  }

  lemma NextDayNumber(d: Date)
    requires ValidDate(d)
    ensures DayNumber(NextDay(d)) == DayNumber(d) + 1
  {
    ValidDayNumber(d);
    ValidDayNumber(NextDay(d));
    MonthLength(d.year, d.month);
    YearLength(d.year);
  }

  // ---------------------------------------------------------------- daysBetween

  /** Only the calendar dates matter: the time of day of either instant does not. */
  lemma DaysBetweenIgnoresTime(a: Instant, b: Instant, ms1: nat, ms2: nat)
    ensures DaysBetween(Instant(a.date, ms1), Instant(b.date, ms2)) == DaysBetween(a, b)
  {}

  lemma DaysBetweenAntisymmetric(a: Instant, b: Instant)
    ensures DaysBetween(a, b) == -DaysBetween(b, a)
  {}

  /** Two instants on dates in range are 0 days apart exactly when they fall on the same date. */
  lemma DaysBetweenZeroIff(a: Instant, b: Instant)
    requires ValidDate(a.date) && ValidDate(b.date)
    ensures DaysBetween(a, b) == 0 <==> a.date == b.date
  {
    if DaysBetween(a, b) == 0 {
      DayNumberInjective(a.date, b.date);
    }
  }

  /**
   * Two instants are 1 day apart exactly when the second falls on the calendar
   * day after the first, also across the end of a month or a year.
   */
  lemma DaysBetweenOneIff(a: Instant, b: Instant)
    requires ValidDate(a.date) && ValidDate(b.date)
    ensures DaysBetween(a, b) == 1 <==> b.date == NextDay(a.date)
  {
    NextDayNumber(a.date);
    if DaysBetween(a, b) == 1 {
      DayNumberInjective(b.date, NextDay(a.date));
    }
  }

  // ---------------------------------------------------------------- fmtDate and parseDate

  /** fmtDate(d): the year, then month and day padded to two digits, separated by '-'. */
  function FmtDate(d: Date): string
    requires ValidDate(d)
  {
    IntToString(d.year) + "-" + PadStart2(NatToString(d.month)) + "-" + PadStart2(NatToString(d.day))
  }

  /**
   * parseDate(s): the first three '-'-separated fields through parseInt, as
   * the local midnight of new Date(y, m - 1, d); a year from 0 to 99 means
   * 1900 + y there. None stands for the Invalid Date a missing or non-numeric
   * field produces.
   */
  function ParseDate(s: string): Option<Instant> {
    var fields := Split(s, '-');
    if |fields| < 3 then None
    else DateOf(ParseInt(fields[0]), ParseInt(fields[1]), ParseInt(fields[2]))
  }

  function DateOf(y: Option<int>, m: Option<int>, d: Option<int>): Option<Instant> {
    if y.Some? && m.Some? && d.Some? then
      Some(Instant(Date(if 0 <= y.value <= 99 then 1900 + y.value else y.value, m.value, d.value), 0))
    else None
  }

  /** Reading back what fmtDate wrote gives the same year, month and day, for every year from 100 on. */
  lemma FmtDateRoundTrip(d: Date)
    requires ValidDate(d) && d.year >= 100
    ensures ParseDate(FmtDate(d)) == Some(Instant(d, 0))
  {
    assert d.day <= 31;
    FieldsRoundTrip(d.year, d.month, d.day);
    FmtDateReadBack(d);
  }

  /** Years 0..99 come back from fmtDate's text as 1900 + year, as JavaScript's Date does. */
  lemma FmtDateTwoDigitYear(d: Date)
    requires ValidDate(d) && 0 <= d.year < 100
    ensures ParseDate(FmtDate(d)) == Some(Instant(Date(1900 + d.year, d.month, d.day), 0))
  {
    assert d.day <= 31;
    FieldsRoundTrip(d.year, d.month, d.day);
    FmtDateReadBack(d);
  }

  /** Each field fmtDate writes parses back to its number. */
  lemma FieldsRoundTrip(year: nat, month: nat, day: nat)
    requires month < 100 && day < 100
    ensures ParseInt(NatToString(year)) == Some(year)
    ensures ParseInt(PadStart2(NatToString(month))) == Some(month)
    ensures ParseInt(PadStart2(NatToString(day))) == Some(day)
  {
    NatToStringRoundTrip(year);
    PaddedRoundTrip(month);
    PaddedRoundTrip(day);
  }

  lemma FmtDateReadBack(d: Date)
    requires ValidDate(d) && d.year >= 0
    requires ParseInt(NatToString(d.year)) == Some(d.year)
    requires ParseInt(PadStart2(NatToString(d.month))) == Some(d.month)
    requires ParseInt(PadStart2(NatToString(d.day))) == Some(d.day)
    ensures ParseDate(FmtDate(d)) == Some(Instant(Date(if d.year < 100 then 1900 + d.year else d.year, d.month, d.day), 0))
  {
    FmtDateFields(d);
    ParseDateFields(FmtDate(d), NatToString(d.year), PadStart2(NatToString(d.month)),
                    PadStart2(NatToString(d.day)), d.year, d.month, d.day);
  }

  /** The three fields of fmtDate's text are the year and the padded month and day. */
  lemma FmtDateFields(d: Date)
    requires ValidDate(d) && d.year >= 0
    ensures Split(FmtDate(d), '-') == [NatToString(d.year), PadStart2(NatToString(d.month)), PadStart2(NatToString(d.day))]
  {
    var y, m, dd := NatToString(d.year), PadStart2(NatToString(d.month)), PadStart2(NatToString(d.day));
    assert FmtDate(d) == y + ['-'] + (m + ['-'] + dd);
    PadDigits(NatToString(d.month));
    PadDigits(NatToString(d.day));
    NoDash(y);
    NoDash(m);
    NoDash(dd);
    SplitFirst(y, '-', m + ['-'] + dd);
    SplitFirst(m, '-', dd);
    SplitWhole(dd, '-');
  }

  lemma ParseDateFields(s: string, y: string, m: string, dd: string, year: int, month: int, day: int)
    requires Split(s, '-') == [y, m, dd] && year >= 0
    requires ParseInt(y) == Some(year) && ParseInt(m) == Some(month) && ParseInt(dd) == Some(day)
    ensures ParseDate(s) == Some(Instant(Date(if year < 100 then 1900 + year else year, month, day), 0))
  {
    var fields := Split(s, '-');
    assert fields[0] == y && fields[1] == m && fields[2] == dd;
    assert DateOf(ParseInt(y), ParseInt(m), ParseInt(dd)) == Some(Instant(Date(if year < 100 then 1900 + year else year, month, day), 0));
  }

  lemma NoDash(t: string)
    requires AllDigits(t)
    ensures '-' !in t
  {}

  lemma PadDigits(t: string)
    requires AllDigits(t)
    ensures AllDigits(PadStart2(t))
  {}

  lemma PadLength(n: nat)
    requires n < 100
    ensures |PadStart2(NatToString(n))| == 2
  {
    if n >= 10 {
      assert |NatToString(n / 10)| == 1;
    }
  }

  lemma FourDigits(n: nat)
    requires 1000 <= n <= 9999
    ensures |NatToString(n)| == 4
  {
    assert |NatToString(n / 1000)| == 1;
    assert |NatToString(n / 100)| == 2;
    assert |NatToString(n / 10)| == 3;
  }

  /** For a four-digit year the text has the fixed YYYY-MM-DD layout. */
  lemma FmtDateLayout(d: Date)
    requires ValidDate(d) && 1000 <= d.year <= 9999
    ensures |FmtDate(d)| == 10 && FmtDate(d)[4] == '-' && FmtDate(d)[7] == '-'
    ensures AllDigits(FmtDate(d)[..4]) && AllDigits(FmtDate(d)[5..7]) && AllDigits(FmtDate(d)[8..])
  {
    var y, m, dd := NatToString(d.year), PadStart2(NatToString(d.month)), PadStart2(NatToString(d.day));
    FourDigits(d.year);
    PadDigits(NatToString(d.month));
    PadDigits(NatToString(d.day));
    PadLength(d.month);
    PadLength(d.day);
    var s := FmtDate(d);
    assert s == y + ['-'] + m + ['-'] + dd;
    assert s[..4] == y;
    assert s[5..7] == m;
    assert s[8..] == dd;
  }
}
