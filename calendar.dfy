/**
 * java.time.LocalDate and LocalDateTime as far as the core uses them: the ISO-8601 proleptic
 * Gregorian calendar, day arithmetic, ISO days of the week (1 = Monday ... 7 = Sunday), the
 * month and week adjusters, and isAfter.
 */
module Calendar {

  datatype Date = Date(year: int, month: int, day: int)

  /** A date with a time of day; only the date part matters to the core. */
  datatype DateTime = DateTime(date: Date, nanoOfDay: int)

  const Monday := 1
  const Saturday := 6
  const Sunday := 7

  predicate IsLeapYear(y: int) {
    y % 4 == 0 && (y % 100 != 0 || y % 400 == 0)
  }

  /** LocalDate.lengthOfMonth. */
  function DaysInMonth(y: int, m: int): (n: int)
    requires 1 <= m <= 12
    ensures 28 <= n <= 31
    ensures m == 2 ==> (n == 29 <==> IsLeapYear(y))
  {
    if m == 2 then (if IsLeapYear(y) then 29 else 28)
    else if m == 4 || m == 6 || m == 9 || m == 11 then 30
    else 31
  }

  predicate IsValid(d: Date) {
    1 <= d.month <= 12 && 1 <= d.day <= DaysInMonth(d.year, d.month)
  }

  predicate IsValidDateTime(t: DateTime) {
    IsValid(t.date) && 0 <= t.nanoOfDay < 86_400_000_000_000
  }

  /** The days of the year that come before the first of month `m`. */
  function DaysBeforeMonth(y: int, m: int): int
    requires 1 <= m <= 12
  {
    (if m == 1 then 0 else if m == 2 then 31 else if m == 3 then 59 else if m == 4 then 90
     else if m == 5 then 120 else if m == 6 then 151 else if m == 7 then 181 else if m == 8 then 212
     else if m == 9 then 243 else if m == 10 then 273 else if m == 11 then 304 else 334)
    + (if m > 2 && IsLeapYear(y) then 1 else 0)
  }

  /** The number of leap years from year 1 up to year n (negative below year 1). */
  function LeapYearsUpTo(n: int): int {
    n / 4 - n / 100 + n / 400
  }

  /** Consecutive day numbering: 0001-01-01 is day 1. */
  function DayNumber(d: Date): int
    requires IsValid(d)
  {
    365 * (d.year - 1) + LeapYearsUpTo(d.year - 1) + DaysBeforeMonth(d.year, d.month) + d.day
  }

  /** LocalDate.getDayOfWeek().getValue(): 0001-01-01 was a Monday. */
  function DayOfWeek(d: Date): (w: int)
    requires IsValid(d)
    ensures Monday <= w <= Sunday
  {
    (DayNumber(d) - 1) % 7 + 1
  }

  lemma LeapYearsStep(y: int)
    ensures LeapYearsUpTo(y) - LeapYearsUpTo(y - 1) == if IsLeapYear(y) then 1 else 0
  {
    QuotientStep(y, 4);
    QuotientStep(y, 100);
    QuotientStep(y, 400);
    DivisorsChain(y);
  }

  lemma DivisorsChain(y: int)
    ensures y % 400 == 0 ==> y % 100 == 0
    ensures y % 100 == 0 ==> y % 4 == 0
  {
    if y % 400 == 0 {
      var m := 4 * (y / 400);
      assert y == 100 * m;
      MultipleMod(m, 100);
    }
    if y % 100 == 0 {
      var m := 25 * (y / 100);
      assert y == 4 * m;
      MultipleMod(m, 4);
    }
  }

  lemma MultipleMod(m: int, d: int)
    requires d == 4 || d == 100
    ensures (d * m) % d == 0
  {
    if d == 4 {
      assert (4 * m) % 4 == 0;
    } else {
      assert (100 * m) % 100 == 0;
    }
  }

  /** Going from y - 1 to y adds one to the quotient by d exactly when d divides y. */
  lemma QuotientStep(y: int, d: int)
    requires d == 4 || d == 100 || d == 400
    ensures y / d - (y - 1) / d == if y % d == 0 then 1 else 0
  {
    var q := (y - 1) / d;
    var r := (y - 1) % d;
    if d == 4 {
      assert y == 4 * q + r + 1;
    } else if d == 100 {
      assert y == 100 * q + r + 1;
    } else {
      assert y == 400 * q + r + 1;
    }
  }

  lemma DaysBeforeNextMonth(y: int, m: int)
    requires 1 <= m < 12
    ensures DaysBeforeMonth(y, m + 1) == DaysBeforeMonth(y, m) + DaysInMonth(y, m)
  {
  }

  /** The day after `d`. */
  function NextDay(d: Date): (r: Date)
    requires IsValid(d)
    ensures IsValid(r) && DayNumber(r) == DayNumber(d) + 1
  {
    if d.day < DaysInMonth(d.year, d.month) then Date(d.year, d.month, d.day + 1)
    else if d.month < 12 then
      DaysBeforeNextMonth(d.year, d.month);
      Date(d.year, d.month + 1, 1)
    else
      LeapYearsStep(d.year);
      Date(d.year + 1, 1, 1)
  }

  /** The day before `d`. */
  function PrevDay(d: Date): (r: Date)
    requires IsValid(d)
    ensures IsValid(r) && DayNumber(r) == DayNumber(d) - 1
  {
    if d.day > 1 then Date(d.year, d.month, d.day - 1)
    else if d.month > 1 then
      DaysBeforeNextMonth(d.year, d.month - 1);
      Date(d.year, d.month - 1, DaysInMonth(d.year, d.month - 1))
    else
      LeapYearsStep(d.year - 1);
      Date(d.year - 1, 12, 31)
  }

  /** LocalDate.plusDays (negative `n` goes back). */
  function PlusDays(d: Date, n: int): (r: Date)
    requires IsValid(d)
    ensures IsValid(r) && DayNumber(r) == DayNumber(d) + n
    decreases if n >= 0 then n else -n
  {
    if n == 0 then d
    else if n > 0 then PlusDays(NextDay(d), n - 1)
    else PlusDays(PrevDay(d), n + 1)
  }

  /** Moving by `n` days moves the day of the week by `n` modulo 7. */
  lemma DayOfWeekPlusDays(d: Date, n: int)
    requires IsValid(d)
    ensures DayOfWeek(PlusDays(d, n)) == (DayOfWeek(d) - 1 + n) % 7 + 1
  {
    DayOfWeekShift(d, PlusDays(d, n), n);
  }

  /** A date `n` days after another falls `n` days later in the week. */
  lemma DayOfWeekShift(d: Date, r: Date, n: int)
    requires IsValid(d) && IsValid(r) && DayNumber(r) == DayNumber(d) + n
    ensures DayOfWeek(r) == (DayOfWeek(d) - 1 + n) % 7 + 1
  {
    ModSevenShift(DayNumber(d) - 1, n);
  }

  lemma ModSevenShift(a: int, n: int)
    ensures (a + n) % 7 == (a % 7 + n) % 7
  {
    var q := a / 7;
    assert a + n == 7 * q + (a % 7 + n);
  }

  lemma SmallModSeven(x: int)
    requires -7 <= x < 14
    ensures x % 7 == if x < 0 then x + 7 else if x < 7 then x else x - 7
  {
  }

  /** LocalDate.isAfter: a later year, or the same year and a later month, or the same month and
      a later day. */
  predicate IsAfter(a: Date, b: Date) {
    a.year > b.year
    || (a.year == b.year && a.month > b.month)
    || (a.year == b.year && a.month == b.month && a.day > b.day)
  }

  function FirstOfYear(y: int): int {
    365 * (y - 1) + LeapYearsUpTo(y - 1) + 1
  }

  lemma {:induction false} FirstOfYearGrows(y1: int, y2: int)
    requires y1 < y2
    ensures FirstOfYear(y1) + 365 <= FirstOfYear(y2)
    decreases y2 - y1
  {
    LeapYearsStep(y1);
    if y1 + 1 < y2 {
      FirstOfYearGrows(y1 + 1, y2);
    }
  }

  lemma DayNumberWithinYear(d: Date)
    requires IsValid(d)
    ensures FirstOfYear(d.year) <= DayNumber(d) < FirstOfYear(d.year + 1)
  {
    LeapYearsStep(d.year);
  }

  /** On valid dates, isAfter is the order of the day numbers. */
  lemma IsAfterIffLaterDayNumber(a: Date, b: Date)
    requires IsValid(a) && IsValid(b)
    ensures IsAfter(a, b) <==> DayNumber(a) > DayNumber(b)
  {
    if a.year == b.year {
      SameYearOrder(a, b);
    } else if a.year < b.year {
      YearsOrdered(a, b);
    } else {
      YearsOrdered(b, a);
    }
  }

  /** A date of an earlier year has the smaller day number. */
  lemma YearsOrdered(a: Date, b: Date)
    requires IsValid(a) && IsValid(b) && a.year < b.year
    ensures DayNumber(a) < DayNumber(b)
  {
    DayNumberWithinYear(a);
    DayNumberWithinYear(b);
    if a.year + 1 < b.year {
      FirstOfYearGrows(a.year + 1, b.year);
    }
  }

  /** Within a year, isAfter is the order of the day numbers. */
  lemma SameYearOrder(a: Date, b: Date)
    requires IsValid(a) && IsValid(b) && a.year == b.year
    ensures IsAfter(a, b) <==> DayNumber(a) > DayNumber(b)
  {
    if a.month < b.month {
      MonthsOrdered(a.year, a.month, b.month);
    } else if b.month < a.month {
      MonthsOrdered(a.year, b.month, a.month);
    }
  }

  /** Every day of an earlier month comes before the first of a later month. */
  lemma {:induction false} MonthsOrdered(y: int, m1: int, m2: int)
    requires 1 <= m1 < m2 <= 12
    ensures DaysBeforeMonth(y, m1) + DaysInMonth(y, m1) <= DaysBeforeMonth(y, m2)
    decreases m2 - m1
  {
    DaysBeforeNextMonth(y, m1);
    if m1 + 1 < m2 {
      MonthsOrdered(y, m1 + 1, m2);
    }
  }

  /** Two valid dates with the same day number are the same date. */
  lemma DayNumberInjective(a: Date, b: Date)
    requires IsValid(a) && IsValid(b) && DayNumber(a) == DayNumber(b)
    ensures a == b
  {
    IsAfterIffLaterDayNumber(a, b);
    IsAfterIffLaterDayNumber(b, a);
  }

  /** TemporalAdjusters.previousOrSame(dow). */
  function PreviousOrSame(d: Date, dow: int): (r: Date)
    requires IsValid(d) && Monday <= dow <= Sunday
    ensures IsValid(r) && DayOfWeek(r) == dow
    ensures DayNumber(r) <= DayNumber(d) < DayNumber(r) + 7
  {
    var w := DayOfWeek(d);
    var diff := w - dow;
    var n := if diff >= 0 then -diff else -(diff + 7);
    var r := PlusDays(d, n);
    LandsOnWeekday(d, r, n, dow);
    r
  }

  /** TemporalAdjusters.nextOrSame(dow). */
  function NextOrSame(d: Date, dow: int): (r: Date)
    requires IsValid(d) && Monday <= dow <= Sunday
    ensures IsValid(r) && DayOfWeek(r) == dow
    ensures DayNumber(d) <= DayNumber(r) < DayNumber(d) + 7
  {
    var w := DayOfWeek(d);
    if w == dow then d
    else
      var diff := w - dow;
      var n := if diff >= 0 then 7 - diff else -diff;
      var r := PlusDays(d, n);
      LandsOnWeekday(d, r, n, dow);
      r
  }

  /** LocalDate.with(DayOfWeek): the given day of the same Monday-to-Sunday week. */
  function WithDayOfWeek(d: Date, dow: int): (r: Date)
    requires IsValid(d) && Monday <= dow <= Sunday
    ensures IsValid(r) && DayOfWeek(r) == dow
    ensures DayNumber(r) - DayNumber(d) == dow - DayOfWeek(d)
  {
    var n := dow - DayOfWeek(d);
    var r := PlusDays(d, n);
    LandsOnWeekday(d, r, n, dow);
    r
  }

  /** A date whose day number is `n` after that of a date of weekday `w` is of weekday `dow`
      when `n` is the distance from `w` to `dow`, or that distance plus or minus a week. */
  lemma LandsOnWeekday(d: Date, r: Date, n: int, dow: int)
    requires IsValid(d) && IsValid(r) && Monday <= dow <= Sunday && DayNumber(r) == DayNumber(d) + n
    requires var w := DayOfWeek(d); n == dow - w || n == dow - w + 7 || n == dow - w - 7
    ensures DayOfWeek(r) == dow
  {
    DayOfWeekShift(d, r, n);
    WeekdayStep(DayOfWeek(d), n, dow);
  }

  /** Moving from weekday `w` by the distance to `dow`, or that distance plus or minus a week,
      lands on `dow`. */
  lemma WeekdayStep(w: int, n: int, dow: int)
    requires Monday <= w <= Sunday && Monday <= dow <= Sunday
    requires n == dow - w || n == dow - w + 7 || n == dow - w - 7
    ensures (w - 1 + n) % 7 + 1 == dow
  {
  }

  /** TemporalAdjusters.firstDayOfMonth. */
  function FirstDayOfMonth(d: Date): (r: Date)
    requires IsValid(d)
    ensures IsValid(r) && r.year == d.year && r.month == d.month && r.day == 1
  {
    Date(d.year, d.month, 1)
  }

  /** A day lies between the first and the last day of its month. */
  lemma MonthBrackets(d: Date)
    requires IsValid(d)
    ensures DayNumber(FirstDayOfMonth(d)) <= DayNumber(d) <= DayNumber(LastDayOfMonth(d))
  {
    var first, last := FirstDayOfMonth(d), LastDayOfMonth(d);
    assert DayNumber(d) - DayNumber(first) == d.day - 1;
    assert DayNumber(last) - DayNumber(d) == last.day - d.day;
  }

  /** TemporalAdjusters.lastDayOfMonth. */
  function LastDayOfMonth(d: Date): (r: Date)
    requires IsValid(d)
    ensures IsValid(r) && r.year == d.year && r.month == d.month
    ensures IsValid(NextDay(r)) && NextDay(r).day == 1
  {
    Date(d.year, d.month, DaysInMonth(d.year, d.month))
  }
}
