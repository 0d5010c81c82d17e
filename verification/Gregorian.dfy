/**
 The proleptic Gregorian calendar over day numbers: day 0 is 0001-01-01, a Monday.
 A civil date of the calendar code is a day number here; `Date` normalises
 out-of-range months and days exactly as Go's `time.Date` does.
 */
module Gregorian {
  import opened Arithmetic

  /** Days in the 400-year cycle; a multiple of seven. */
  const DAYS_PER_CYCLE := 146097

  predicate Leap(year: int) {
    year % 4 == 0 && (year % 100 != 0 || year % 400 == 0)
  }

  function DaysInYear(year: int): int {
    if Leap(year) then 366 else 365
  }

  function DaysBeforeYear(year: int): int {
    var y := year - 1;
    365 * y + y / 4 - y / 100 + y / 400
  }

  /** Days of `year` before `month`; month 13 stands for the end of the year. */
  function DaysBeforeMonth(year: int, month: int): int
    requires 1 <= month <= 13
  {
    var common := [0, 31, 59, 90, 120, 151, 181, 212, 243, 273, 304, 334, 365];
    common[month - 1] + if month > 2 && Leap(year) then 1 else 0
  }

  function DaysInMonth(year: int, month: int): int
    requires 1 <= month <= 12
  {
    DaysBeforeMonth(year, month + 1) - DaysBeforeMonth(year, month)
  }

  /** The year holding a day number. */
  function Year(day: int): (y: int)
    ensures DaysBeforeYear(y) <= day < DaysBeforeYear(y + 1)
  {
    var cycle := day / DAYS_PER_CYCLE;
    CycleYear(1, cycle);
    YearFrom(day, 400 * cycle + 1)
  }

  /** The year holding `day`, searched upwards from `start`. */
  function YearFrom(day: int, start: int): (y: int)
    requires DaysBeforeYear(start) <= day
    ensures DaysBeforeYear(y) <= day < DaysBeforeYear(y + 1)
    decreases day - DaysBeforeYear(start)
  {
    YearSpan(start);
    if day < DaysBeforeYear(start + 1) then start else YearFrom(day, start + 1)
  }

  function YearDay(day: int): (d: int)
    ensures 1 <= d <= DaysInYear(Year(day))
  {
    YearSpan(Year(day));
    day - DaysBeforeYear(Year(day)) + 1
  }

  function Month(day: int): (m: int)
    ensures 1 <= m <= 12
    ensures DaysBeforeMonth(Year(day), m) < YearDay(day) <= DaysBeforeMonth(Year(day), m + 1)
  {
    var y, d := Year(day), YearDay(day);
    if d <= DaysBeforeMonth(y, 2) then 1
    else if d <= DaysBeforeMonth(y, 3) then 2
    else if d <= DaysBeforeMonth(y, 4) then 3
    else if d <= DaysBeforeMonth(y, 5) then 4
    else if d <= DaysBeforeMonth(y, 6) then 5
    else if d <= DaysBeforeMonth(y, 7) then 6
    else if d <= DaysBeforeMonth(y, 8) then 7
    else if d <= DaysBeforeMonth(y, 9) then 8
    else if d <= DaysBeforeMonth(y, 10) then 9
    else if d <= DaysBeforeMonth(y, 11) then 10
    else if d <= DaysBeforeMonth(y, 12) then 11
    else 12
  }

  function DayOfMonth(day: int): int {
    YearDay(day) - DaysBeforeMonth(Year(day), Month(day))
  }

  /** Monday is 0. */
  function Weekday(day: int): int {
    day % 7
  }

  /** `time.Date`: months and days outside their range carry over. */
  function Date(year: int, month: int, day: int): int {
    var y, m := year + (month - 1) / 12, (month - 1) % 12 + 1;
    DaysBeforeYear(y) + DaysBeforeMonth(y, m) + day - 1
  }

  /** `Time.AddDate`. */
  function AddDate(date: int, years: int, months: int, days: int): int {
    Date(Year(date) + years, Month(date) + months, DayOfMonth(date) + days)
  }

  /** Months counted from month 0 = January of year 0. */
  function MonthIndex(day: int): int {
    12 * Year(day) + Month(day) - 1
  }

  function MonthStart(index: int): int {
    DaysBeforeYear(index / 12) + DaysBeforeMonth(index / 12, index % 12 + 1)
  }

  lemma NextQuotient(n: int, divisor: int)
    requires 0 < divisor
    ensures (n + 1) / divisor == n / divisor + if (n + 1) % divisor == 0 then 1 else 0
  {
    var q := n / divisor;
    assert n == divisor * q + n % divisor;
    if n % divisor == divisor - 1 {
      assert divisor * (q + 1) == divisor * q + divisor;
      Quotient(n + 1, divisor, q + 1);
    } else {
      Quotient(n + 1, divisor, q);
    }
  }

  lemma YearSpan(year: int)
    ensures DaysBeforeYear(year + 1) == DaysBeforeYear(year) + DaysInYear(year)
  {
    NextQuotient(year - 1, 4);
    NextQuotient(year - 1, 100);
    NextQuotient(year - 1, 400);
    if year % 400 == 0 { Quotient(year, 100, 4 * (year / 400)); }
    if year % 100 == 0 { Quotient(year, 4, 25 * (year / 100)); }
  }

  lemma {:induction false} YearsAscend(a: int, b: int)
    requires a <= b
    ensures DaysBeforeYear(a) + 365 * (b - a) <= DaysBeforeYear(b)
    decreases b - a
  {
    if a < b {
      YearSpan(a);
      YearsAscend(a + 1, b);
    }
  }

  lemma YearUnique(day: int, year: int)
    requires DaysBeforeYear(year) <= day < DaysBeforeYear(year + 1)
    ensures Year(day) == year
  {
    if Year(day) < year {
      YearsAscend(Year(day) + 1, year);
    } else if year < Year(day) {
      YearsAscend(year + 1, Year(day));
    }
  }

  lemma MonthsAscend(year: int, a: int, b: int)
    requires 1 <= a < b <= 13
    ensures DaysBeforeMonth(year, a) + 28 <= DaysBeforeMonth(year, b)
  {
  }

  lemma MonthUnique(day: int, month: int)
    requires 1 <= month <= 12
    requires DaysBeforeMonth(Year(day), month) < YearDay(day) <= DaysBeforeMonth(Year(day), month + 1)
    ensures Month(day) == month
  {
    if Month(day) < month {
      if Month(day) + 1 < month { MonthsAscend(Year(day), Month(day) + 1, month); }
    } else if month < Month(day) {
      if month + 1 < Month(day) { MonthsAscend(Year(day), month + 1, Month(day)); }
    }
  }

  /** Reading a day number's civil date and writing it back gives the same day. */
  lemma CivilRoundTrip(day: int)
    ensures Date(Year(day), Month(day), DayOfMonth(day)) == day
  {
    hide Year, Month, DaysBeforeYear, DaysBeforeMonth;
    Quotient(Month(day) - 1, 12, 0);
  }

  lemma MonthInYear(year: int, month: int, day: int)
    requires 1 <= month <= 12 && 1 <= day <= DaysInMonth(year, month)
    ensures 0 <= DaysBeforeMonth(year, month)
    ensures DaysBeforeYear(year) + DaysBeforeMonth(year, month) + day - 1 < DaysBeforeYear(year + 1)
  {
    YearSpan(year);
  }

  /** A civil date inside its month is read back unchanged. */
  lemma DateReadsBack(year: int, month: int, day: int)
    requires 1 <= month <= 12 && 1 <= day <= DaysInMonth(year, month)
    ensures var n := Date(year, month, day);
            Year(n) == year && Month(n) == month && DayOfMonth(n) == day
  {
    var n := Date(year, month, day);
    assert n == DaysBeforeYear(year) + DaysBeforeMonth(year, month) + day - 1;
    MonthInYear(year, month, day);
    YearUnique(n, year);
    assert YearDay(n) == DaysBeforeMonth(year, month) + day;
    MonthUnique(n, month);
  }

  /** Day 0 of the next month is the last day of this one. */
  lemma LastDayByCarry(year: int, month: int)
    requires 1 <= month <= 12
    ensures DayOfMonth(Date(year, month + 1, 0)) == DaysInMonth(year, month)
  {
    hide Date, DayOfMonth;
    LastDay(year, month);
    DateReadsBack(year, month, DaysInMonth(year, month));
  }

  lemma LastDay(year: int, month: int)
    requires 1 <= month <= 12
    ensures Date(year, month + 1, 0) == Date(year, month, DaysInMonth(year, month))
  {
    if month == 12 {
      YearSpan(year);
      Quotient(12, 12, 1);
    } else {
      Quotient(month, 12, 0);
    }
    Quotient(month - 1, 12, 0);
  }

  /** 29 February falls in February exactly in leap years. */
  lemma LeapByCarry(year: int)
    ensures Month(Date(year, 2, 29)) == 2 <==> Leap(year)
  {
    if Leap(year) {
      DateReadsBack(year, 2, 29);
    } else {
      DateReadsBack(year, 3, 1);
      assert Date(year, 2, 29) == Date(year, 3, 1);
    }
  }

  /** Adding days to a civil date is addition on day numbers. */
  lemma AddDays(date: int, days: int)
    ensures AddDate(date, 0, 0, days) == date + days
  {
    hide Year, Month, DayOfMonth, DaysBeforeYear, DaysBeforeMonth;
    CivilRoundTrip(date);
  }

  /** The whole calendar repeats every 400 years. */
  lemma CyclePeriodic(day: int, k: int)
    ensures var n := day + DAYS_PER_CYCLE * k;
            && Year(n) == Year(day) + 400 * k
            && YearDay(n) == YearDay(day)
            && Month(n) == Month(day)
            && DayOfMonth(n) == DayOfMonth(day)
            && Weekday(n) == Weekday(day)
  {
    hide Year, Month, DayOfMonth, DaysBeforeYear, Weekday;
    var n := day + DAYS_PER_CYCLE * k;
    CycleYearOf(day, k);
    CycleYear(Year(day), k);
    SameMonth(n, day);
    CycleWeekday(day, k);
  }

  lemma CycleYearOf(day: int, k: int)
    ensures Year(day + DAYS_PER_CYCLE * k) == Year(day) + 400 * k
  {
    hide Year, DaysBeforeYear;
    CycleYear(Year(day), k);
    CycleYear(Year(day) + 1, k);
    assert Year(day) + 400 * k + 1 == Year(day) + 1 + 400 * k;
    YearUnique(day + DAYS_PER_CYCLE * k, Year(day) + 400 * k);
  }

  lemma CycleWeekday(day: int, k: int)
    ensures Weekday(day + DAYS_PER_CYCLE * k) == Weekday(day)
  {
    Quotient(day + DAYS_PER_CYCLE * k, 7, day / 7 + 20871 * k);
  }

  lemma SameMonth(a: int, b: int)
    requires YearDay(a) == YearDay(b) && Leap(Year(a)) == Leap(Year(b))
    ensures Month(a) == Month(b) && DayOfMonth(a) == DayOfMonth(b)
  {
  }

  lemma CycleYear(year: int, k: int)
    ensures DaysBeforeYear(year + 400 * k) == DaysBeforeYear(year) + DAYS_PER_CYCLE * k
    ensures Leap(year + 400 * k) == Leap(year)
  {
    var y := year - 1;
    Quotient(y + 400 * k, 4, y / 4 + 100 * k);
    Quotient(y + 400 * k, 100, y / 100 + 4 * k);
    Quotient(y + 400 * k, 400, y / 400 + k);
    WholeTurns(year, 4, 100 * k);
    WholeTurns(year, 100, 4 * k);
    WholeTurns(year, 400, k);
  }

  /** Month starts repeat every 4800 months. */
  lemma CycleMonth(index: int, k: int)
    ensures MonthStart(index + 4800 * k) == MonthStart(index) + DAYS_PER_CYCLE * k
  {
    Quotient(index + 4800 * k, 12, index / 12 + 400 * k);
    CycleYear(index / 12, k);
  }

  /** Consecutive month starts are a month's length apart. */
  lemma MonthSpan(index: int)
    ensures MonthStart(index + 1) == MonthStart(index) + DaysInMonth(index / 12, index % 12 + 1)
    ensures 28 <= DaysInMonth(index / 12, index % 12 + 1) <= 31
  {
    var y, m := index / 12, index % 12 + 1;
    if m == 12 {
      assert (index + 1) / 12 == y + 1 && (index + 1) % 12 == 0;
      YearSpan(y);
    } else {
      assert (index + 1) / 12 == y && (index + 1) % 12 == m;
    }
  }

  /** Stepping a month start by months stays on month starts. */
  lemma AddMonths(index: int, months: int)
    ensures AddDate(MonthStart(index), 0, months, 0) == MonthStart(index + months)
    ensures MonthIndex(MonthStart(index)) == index
  {
    hide DaysBeforeYear, DaysBeforeMonth, Year, Month, DayOfMonth;
    var y, m := index / 12, index % 12 + 1;
    MonthSpan(index);
    DateReadsBack(y, m, 1);
    Quotient(m - 1, 12, 0);
    assert Date(y, m, 1) == MonthStart(index);
    var carry, rest := (m + months - 1) / 12, (m + months - 1) % 12;
    Quotient(index + months, 12, y + carry);
  }

  /** Stepping 1 January by years stays on 1 January. */
  lemma AddYears(year: int, years: int)
    ensures AddDate(DaysBeforeYear(year), years, 0, 0) == DaysBeforeYear(year + years)
    ensures Year(DaysBeforeYear(year)) == year
  {
    hide Year, Month, DayOfMonth, DaysBeforeYear;
    DateReadsBack(year, 1, 1);
    var start := DaysBeforeYear(year);
    Quotient(0, 12, 0);
    assert start == Date(year, 1, 1);
    assert AddDate(start, years, 0, 0) == Date(year + years, 1, 1);
  }
}
