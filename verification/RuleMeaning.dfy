/**
 What the selectors of a recurrence rule mean, said with dates, clock readings, list
 membership and counted sets of days; the scanning code is proved to agree.
 */
module RuleMeaning {
  import opened Arithmetic
  import opened Gregorian
  import opened RecurrenceRules
  import opened ClockSelectors
  import opened DateSelectors

  // --- The calendar's anchors ----------------------------------------------------------------

  /** 1 January 1970 was a Thursday; Monday is 0. */
  lemma EpochIsThursday()
    ensures Date(1, 1, 1) == 0 && Date(1970, 1, 1) == 719162 && Weekday(Date(1970, 1, 1)) == 3
  {
  }

  lemma MonthLengths(year: int)
    ensures DaysInMonth(year, 1) == DaysInMonth(year, 3) == DaysInMonth(year, 5) == DaysInMonth(year, 7) == 31
    ensures DaysInMonth(year, 8) == DaysInMonth(year, 10) == DaysInMonth(year, 12) == 31
    ensures DaysInMonth(year, 4) == DaysInMonth(year, 6) == DaysInMonth(year, 9) == DaysInMonth(year, 11) == 30
    ensures DaysInMonth(year, 2) == if year % 4 == 0 && (year % 100 != 0 || year % 400 == 0) then 29 else 28
  {
  }

  // --- Ordinal weekdays ------------------------------------------------------------------------

  /** The days of `[first, last]` on one weekday. */
  ghost function DaysOn(first: int, last: int, weekday: int): set<int> {
    set x | first <= x <= last && Weekday(x) == weekday
  }

  /** Weekdays repeat every seven days and not before. */
  lemma WeekApart(x: int, d: int)
    ensures Weekday(d + 7) == Weekday(d) == Weekday(d - 7)
    ensures -7 < x - d < 7 && Weekday(x) == Weekday(d) ==> x == d
  {
  }

  lemma {:induction false} DaysUpTo(first: int, d: int)
    requires first <= d
    ensures |DaysOn(first, d, Weekday(d))| == (d - first) / 7 + 1
    decreases d - first
  {
    hide Weekday;
    var w := Weekday(d);
    forall x ensures -7 < x - d < 7 && Weekday(x) == w ==> x == d {
      WeekApart(x, d);
    }
    WeekApart(d, d);
    if d - 7 < first {
      assert DaysOn(first, d, w) == {d};
    } else {
      DaysUpTo(first, d - 7);
      assert DaysOn(first, d, w) == DaysOn(first, d - 7, w) + {d};
    }
  }

  lemma {:induction false} DaysDownFrom(d: int, last: int)
    requires d <= last
    ensures |DaysOn(d, last, Weekday(d))| == (last - d) / 7 + 1
    decreases last - d
  {
    hide Weekday;
    var w := Weekday(d);
    forall x ensures -7 < x - d < 7 && Weekday(x) == w ==> x == d {
      WeekApart(x, d);
    }
    WeekApart(d, d);
    if last < d + 7 {
      assert DaysOn(d, last, w) == {d};
    } else {
      DaysDownFrom(d + 7, last);
      assert DaysOn(d, last, w) == DaysOn(d + 7, last, w) + {d};
    }
  }

  /** Ordinals count inside the year for a yearly rule without BYMONTH, else inside the month. */
  function SpanFirst(opt: RuleOption, d: int): int {
    if opt.freq.Yearly? && opt.byMonth == [] then Date(Year(d), 1, 1) else Date(Year(d), Month(d), 1)
  }

  function SpanLast(opt: RuleOption, d: int): int {
    if opt.freq.Yearly? && opt.byMonth == [] then Date(Year(d) + 1, 1, 1) - 1 else Date(Year(d), Month(d) + 1, 1) - 1
  }

  /** `d` is the n-th of its weekday in its span, counted from the front or, for negative n, from the back. */
  ghost predicate IsNth(opt: RuleOption, d: int, n: int) {
    || (n > 0 && |DaysOn(SpanFirst(opt, d), d, Weekday(d))| == n)
    || (n < 0 && |DaysOn(d, SpanLast(opt, d), Weekday(d))| == -n)
  }

  lemma MonthSpanOf(d: int)
    ensures Date(Year(d), Month(d), 1) == d - (DayOfMonth(d) - 1)
    ensures Date(Year(d), Month(d) + 1, 1) == d + (DaysInMonth(Year(d), Month(d)) - DayOfMonth(d)) + 1
    ensures 1 <= DayOfMonth(d) <= DaysInMonth(Year(d), Month(d))
  {
    hide Year, Month, DayOfMonth, Date, DaysInMonth;
    var y, m := Year(d), Month(d);
    MonthDayBound(d);
    CivilRoundTrip(d);
    LastDay(y, m);
    DayByDay(y, m, DayOfMonth(d));
    DayByDay(y, m, DaysInMonth(y, m));
    DayByDay(y, m + 1, 0);
  }

  lemma DayByDay(year: int, month: int, day: int)
    ensures Date(year, month, day) == Date(year, month, 1) + day - 1
  {
  }

  lemma YearSpanOf(d: int)
    ensures Date(Year(d), 1, 1) == d - (YearDay(d) - 1)
    ensures Date(Year(d) + 1, 1, 1) == d + (DaysInYear(Year(d)) - YearDay(d)) + 1
    ensures 1 <= YearDay(d) <= DaysInYear(Year(d))
  {
    YearSpan(Year(d));
    hide Year, DaysBeforeYear, DaysInYear;
  }

  /** The ordinals the code computes are the counted ones. */
  lemma OrdinalMeans(opt: RuleOption, d: int, n: int)
    ensures var (positive, negative) := WeekdayOrdinals(opt, d);
            n != 0 ==> (n == positive || n == negative <==> IsNth(opt, d, n))
  {
    hide Year, Month, DayOfMonth, YearDay, DaysInMonth, DaysInYear, Date, Weekday;
    MonthSpanOf(d);
    YearSpanOf(d);
    DaysUpTo(SpanFirst(opt, d), d);
    DaysDownFrom(d, SpanLast(opt, d));
  }

  // --- All date selectors -------------------------------------------------------------------------

  /** Plain weekday selectors allow the day, and so do the ordinal ones, where there are any. */
  ghost predicate WeekdaysAllow(opt: RuleOption, d: int) {
    && ((exists s :: s in opt.byWeekday && s.n == 0) ==>
          exists s :: s in opt.byWeekday && s.n == 0 && s.day == Weekday(d))
    && ((exists s :: s in opt.byWeekday && s.n != 0) ==>
          exists s :: s in opt.byWeekday && s.n != 0 && s.day == Weekday(d) && IsNth(opt, d, s.n))
  }

  /** Month days and year days count from the front or, for negative values, back from the day after the last. */
  ghost predicate MonthDaysAllow(opt: RuleOption, d: int) {
    || opt.byMonthDay == []
    || exists v :: v in opt.byMonthDay && (d == Date(Year(d), Month(d), 1) + v - 1 || d == Date(Year(d), Month(d) + 1, 1) + v)
  }

  ghost predicate YearDaysAllow(opt: RuleOption, d: int) {
    || opt.byYearDay == []
    || exists v :: v in opt.byYearDay && (d == Date(Year(d), 1, 1) + v - 1 || d == Date(Year(d) + 1, 1, 1) + v)
  }

  /** Week starts up to `w`, and from `w` on, of the weeks whose fourth day lies in the year of `w`'s fourth day. */
  ghost function WeeksUpTo(w: int): set<int> {
    set x | Date(Year(w + 3), 1, 1) - 7 <= x <= w && Weekday(x) == Weekday(w) && Year(x + 3) == Year(w + 3)
  }

  ghost function WeeksFrom(w: int): set<int> {
    set x | w <= x <= Date(Year(w + 3) + 1, 1, 1) + 7 && Weekday(x) == Weekday(w) && Year(x + 3) == Year(w + 3)
  }

  /** The week holding the day has an allowed number, counted within its year from either end. */
  ghost predicate WeeksAllow(opt: RuleOption, d: int) {
    || opt.byWeekNo == []
    || exists w :: w <= d < w + 7 && Weekday(w) == opt.weekStart && WeekAllowed(opt.byWeekNo, w)
  }

  ghost predicate WeekAllowed(weekNumbers: seq<int>, w: int) {
    exists v :: v in weekNumbers && (|WeeksUpTo(w)| == v || -|WeeksFrom(w)| == v)
  }

  /** A weekday's week-numbering year is the year of its fourth day, bounded by first-week starts. */
  lemma WeekOfYear(x: int, y: int)
    ensures Year(x + 3) == y <==> FirstWeekStart(y, Weekday(x)) <= x < FirstWeekStart(y + 1, Weekday(x))
    ensures WeekStart(x, Weekday(x)) == x && WeekYear(x, Weekday(x)) == Year(x + 3)
  {
    hide Year, FirstWeekStart, WeekYear;
    WeekYearByFourthDay(x, Weekday(x));
    assert WeekStart(x, Weekday(x)) == x;
    if FirstWeekStart(y, Weekday(x)) <= x < FirstWeekStart(y + 1, Weekday(x)) {
      WeekYearUnique(x, Weekday(x), y);
    }
  }

  lemma JanuaryFirst(y: int)
    ensures Date(y, 1, 1) == DaysBeforeYear(y)
  {
    Quotient(0, 12, 0);
  }

  lemma WeeksCounted(w: int)
    ensures var (week, negative) := WeekNumbers(w, Weekday(w)); |WeeksUpTo(w)| == week && -|WeeksFrom(w)| == negative
  {
    hide Weekday, Year, FirstWeekStart, WeekYear, DaysBeforeYear, Date, WeekStart;
    var day, y := Weekday(w), Year(w + 3);
    WeekdayRange(w);
    var f, g := FirstWeekStart(y, day), FirstWeekStart(y + 1, day);
    forall x | Weekday(x) == day ensures Year(x + 3) == y <==> f <= x < g {
      WeekOfYear(x, y);
    }
    WeekOfYear(w, y);
    FirstWeekBounds(y, day);
    FirstWeekBounds(y + 1, day);
    JanuaryFirst(y);
    JanuaryFirst(y + 1);
    WeekNumberRange(w, day);
    WeekApart(g - 7, g);
    WeekApart(g, g);
    assert WeeksUpTo(w) == DaysOn(f, w, day);
    DaysUpTo(f, w);
    LastWeek(w, g);
    assert WeeksFrom(w) == DaysOn(w, g - 7, day);
    DaysDownFrom(w, g - 7);
  }

  lemma WeekdayRange(d: int)
    ensures 0 <= Weekday(d) < 7
  {
  }

  lemma LastWeek(w: int, g: int)
    requires w < g && Weekday(w) == Weekday(g)
    ensures w <= g - 7
    ensures forall x :: x < g && Weekday(x) == Weekday(g) ==> x <= g - 7
  {
  }

  /** Every day of a week has the week's numbers. */
  lemma WeekShared(d: int, w: int)
    requires w <= d < w + 7
    ensures WeekStart(d, Weekday(w)) == w && WeekNumbers(d, Weekday(w)) == WeekNumbers(w, Weekday(w))
  {
    hide Weekday, Year, FirstWeekStart, WeekYear, WeekStart, WeekNumbers;
    var day := Weekday(w);
    WeekdayRange(w);
    WeekApart(WeekStart(d, day), w);
    WeekApart(WeekStart(w, day), w);
    WeekYearByFourthDay(d, day);
    WeekYearByFourthDay(w, day);
    WeekNumberRange(d, day);
    WeekNumberRange(w, day);
  }

  lemma WeeksMean(opt: RuleOption, d: int)
    requires Ascending(opt.byWeekNo) && 0 <= opt.weekStart < 7
    ensures opt.byWeekNo == [] || WeekNumberMatches(d, opt.weekStart, opt.byWeekNo) <==> WeeksAllow(opt, d)
  {
    hide Weekday, Year, WeekNumbers, WeekStart, WeeksUpTo, WeeksFrom;
    var w := WeekStart(d, opt.weekStart);
    WeekShared(d, w);
    WeeksCounted(w);
    forall x | x <= d < x + 7 && Weekday(x) == opt.weekStart ensures x == w {
      WeekApart(x, w);
    }
  }

  /**
   A day matches the rule exactly when its month is selected and the month-day, year-day,
   week and weekday selectors allow it. The selector lists are those of a normalised rule.
   */
  lemma DateMatchesMeans(opt: RuleOption, d: int)
    requires Normalized(opt) && 0 <= opt.weekStart < 7
    ensures DateMatches(opt, d) <==>
      && (opt.byMonth == [] || Month(d) in opt.byMonth)
      && MonthDaysAllow(opt, d) && YearDaysAllow(opt, d) && WeeksAllow(opt, d) && WeekdaysAllow(opt, d)
  {
    hide Year, Month, DayOfMonth, YearDay, DaysInMonth, DaysInYear, Date, Weekday, WeekNumberMatches, WeeksAllow, WeekdayOrdinals, IsNth;
    MonthSpanOf(d);
    YearSpanOf(d);
    WeeksMean(opt, d);
    forall n ensures var (positive, negative) := WeekdayOrdinals(opt, d);
                     n != 0 ==> (n == positive || n == negative <==> IsNth(opt, d, n))
    {
      OrdinalMeans(opt, d, n);
    }
  }

  /** One ordinal weekday, BYMONTH aside: the n-th such weekday of the month or of the year. */
  lemma OneOrdinal(opt: RuleOption, d: int, weekday: int, n: int)
    requires Ascending(opt.byMonth) && opt.byMonthDay == [] && opt.byYearDay == [] && opt.byWeekNo == []
    requires n != 0 && opt.byWeekday == [WeekdaySelector(weekday, n)]
    ensures var yearly := opt.freq.Yearly? && opt.byMonth == [];
            var first := if yearly then Date(Year(d), 1, 1) else Date(Year(d), Month(d), 1);
            var last := if yearly then Date(Year(d) + 1, 1, 1) - 1 else Date(Year(d), Month(d) + 1, 1) - 1;
            DateMatches(opt, d) <==>
              && (opt.byMonth == [] || Month(d) in opt.byMonth) && Weekday(d) == weekday
              && (if n > 0 then |DaysOn(first, d, weekday)| == n else |DaysOn(d, last, weekday)| == -n)
  {
    hide Year, Month, DayOfMonth, YearDay, DaysInMonth, DaysInYear, Date, Weekday, WeekdayOrdinals;
    assert opt.byWeekday[0] in opt.byWeekday;
    OrdinalMeans(opt, d, n);
  }

  // --- Periods, counts and work -----------------------------------------------------------------------

  lemma {:induction false} MonthStartsAscend(i: int, j: int)
    requires i <= j
    ensures MonthStart(i) + (j - i) <= MonthStart(j)
    decreases j - i
  {
    hide MonthStart, DaysInMonth;
    if i < j {
      MonthStartsAscend(i, j - 1);
      MonthSpan(j - 1);
    }
  }

  lemma MonthOfDay(d: int, i: int)
    ensures MonthStart(i) <= d < MonthStart(i + 1) <==> MonthIndex(d) == i
  {
    hide MonthStart, Year, Month, DayOfMonth, DaysInMonth, DaysBeforeYear, DaysBeforeMonth;
    MonthSpanOf(d);
    var k := MonthIndex(d);
    Remainder(12, Year(d), Month(d) - 1);
    MonthSpan(k);
    FirstOfMonth(Year(d), Month(d));
    if k < i {
      MonthStartsAscend(k + 1, i);
    } else if i < k {
      MonthStartsAscend(i + 1, k);
    }
  }

  lemma FirstOfMonth(year: int, month: int)
    requires 1 <= month <= 12
    ensures Date(year, month, 1) == MonthStart(12 * year + month - 1)
  {
    Quotient(month - 1, 12, 0);
    Remainder(12, year, month - 1);
  }

  /** Period `n` is the year, month, week or day that many intervals after DTSTART's. */
  lemma PeriodHolds(opt: RuleOption, n: nat, d: int)
    requires !opt.freq.SubDaily() && 0 <= opt.weekStart < 7
    ensures var steps := opt.Interval() * n;
            PeriodStart(opt, n) <= d < PeriodEnd(opt, n) <==>
              match opt.freq
              case Yearly => Year(d) == Year(opt.startDay) + steps
              case Monthly => 12 * Year(d) + Month(d) == 12 * Year(opt.startDay) + Month(opt.startDay) + steps
              case Weekly => exists w, v ::
                && w <= opt.startDay < w + 7 && v <= d < v + 7 && v == w + 7 * steps
                && Weekday(w) == Weekday(v) == opt.weekStart
              case _ => d == opt.startDay + steps
  {
    hide Year, Month, MonthIndex, MonthStart, DaysBeforeYear, WeekStart, Weekday;
    var steps := opt.Interval() * n;
    if opt.freq.Yearly? {
      if Year(d) != Year(opt.startDay) + steps && PeriodStart(opt, n) <= d < PeriodEnd(opt, n) {
        YearUnique(d, Year(opt.startDay) + steps);
      }
    } else if opt.freq.Monthly? {
      MonthOfDay(d, MonthIndex(opt.startDay) + steps);
      MonthIndexMeans(d);
      MonthIndexMeans(opt.startDay);
    } else if opt.freq.Weekly? {
      var w := WeekStart(opt.startDay, opt.weekStart);
      WeeksLater(w, steps);
      forall x | x <= opt.startDay < x + 7 && Weekday(x) == opt.weekStart ensures x == w {
        WeekApart(x, w);
      }
    }
  }

  lemma MonthIndexMeans(d: int)
    ensures MonthIndex(d) == 12 * Year(d) + Month(d) - 1
  {
  }

  lemma WeeksLater(w: int, steps: int)
    ensures Weekday(w + 7 * steps) == Weekday(w)
  {
    WholeTurns(w, 7, steps);
  }

  /** The count of matching days is the number of matching days. */
  lemma {:induction false} CountIsCardinality(opt: RuleOption, first: int, end: int)
    ensures CountMatches(opt, first, end) == |set d | first <= d < end && DateMatches(opt, d)|
    decreases end - first
  {
    hide DateMatches;
    var days := set d | first <= d < end && DateMatches(opt, d);
    if end <= first {
      assert days == {};
    } else {
      CountIsCardinality(opt, first, end - 1);
      var before := set d | first <= d < end - 1 && DateMatches(opt, d);
      assert days == if DateMatches(opt, end - 1) then before + {end - 1} else before;
    }
  }

  /** The work of a period: its candidates, never more than COUNT; with BYSETPOS the largest of three bounds. */
  lemma WorkMeans(opt: RuleOption, matches: nat)
    ensures var work, candidates := PeriodWork(opt, matches), matches * opt.TimesPerDate();
      && (opt.bySetPos == [] && opt.count <= 0 ==> work == candidates)
      && (opt.bySetPos == [] && opt.count > 0 ==> work <= candidates && work <= opt.count && (work == candidates || work == opt.count))
      && (opt.bySetPos != [] ==>
            var positions := (if matches == 0 then 1 else matches) * |opt.bySetPos|;
            var capped := if positions <= 100_000 then positions else 100_001;
            && opt.TimesPerDate() <= work && matches <= work && capped <= work
            && (work == opt.TimesPerDate() || work == matches || work == capped))
  {
  }

  /** A position selects a candidate: position p > 0 the p-th, p < 0 the one that far from the end. */
  lemma SetPosMeans(opt: RuleOption, candidates: nat)
    ensures opt.SetPosCanSelect(candidates) <==>
      exists i :: 0 <= i < candidates && SelectsCandidate(opt.bySetPos, candidates, i)
  {
    if opt.SetPosCanSelect(candidates) {
      if opt.bySetPos == [] {
        assert SelectsCandidate(opt.bySetPos, candidates, 0);
      } else {
        var p :| p in opt.bySetPos && (0 < p <= candidates || (p < 0 && -p <= candidates));
        assert SelectsCandidate(opt.bySetPos, candidates, if p > 0 then p - 1 else candidates + p);
      }
    }
  }

  predicate SelectsCandidate(bySetPos: seq<int>, candidates: int, i: int) {
    bySetPos == [] || exists p :: p in bySetPos && (p == i + 1 || p == i - candidates)
  }

  /** A selector list's values, or the one value DTSTART supplies. */
  function Choices(values: seq<int>, fallback: int): set<int> {
    if values == [] then {fallback} else set v | v in values
  }

  lemma {:induction false} ListCardinality(values: seq<int>)
    requires Ascending(values)
    ensures |set v | v in values| == |values|
  {
    if values != [] {
      var n := |values| - 1;
      ListCardinality(values[..n]);
      assert (set v | v in values) == (set v | v in values[..n]) + {values[n]};
    }
  }

  ghost function Pairs<T, U>(a: set<T>, b: set<U>): set<(T, U)> {
    set x, y | x in a && y in b :: (x, y)
  }

  ghost function Row<T, U>(x: T, b: set<U>): set<(T, U)> {
    set y | y in b :: (x, y)
  }

  lemma PairsSplit<T, U>(a: set<T>, b: set<U>, x: T)
    requires x in a
    ensures Pairs(a, b) == Pairs(a - {x}, b) + Row(x, b) && Pairs(a - {x}, b) !! Row(x, b)
  {
  }

  lemma OneMore(n: nat, m: nat)
    ensures (n + 1) * m == n * m + m
  {
  }

  lemma {:induction false} PairCardinality<T, U>(a: set<T>, b: set<U>)
    ensures |Pairs(a, b)| == |a| * |b|
  {
    if a == {} {
      assert Pairs(a, b) == {};
    } else {
      hide Pairs, Row;
      var x :| x in a;
      PairCardinality(a - {x}, b);
      RowCardinality(x, b);
      PairsSplit(a, b, x);
      assert |a| == |a - {x}| + 1;
      OneMore(|a - {x}|, |b|);
    }
  }

  lemma {:induction false} RowCardinality<T, U>(x: T, b: set<U>)
    ensures |Row(x, b)| == |b|
  {
    if b == {} {
      assert Row(x, b) == {};
    } else {
      var y :| y in b;
      RowCardinality(x, b - {y});
      assert Row(x, b) == Row(x, b - {y}) + {(x, y)};
    }
  }

  /** The times of one matching date are the combinations of its hours, minutes and seconds. */
  lemma TimesAreCombinations(opt: RuleOption)
    requires Normalized(opt)
    ensures var hours, minutes, seconds :=
              Choices(opt.byHour, opt.hour), Choices(opt.byMinute, opt.minute), Choices(opt.bySecond, opt.second);
      && opt.TimesPerDate() == |Pairs(hours, Pairs(minutes, seconds))|
      && (opt.freq.Hourly? ==> opt.TimesPerPeriod() == |Pairs(minutes, seconds)|)
      && (opt.freq.Minutely? ==> opt.TimesPerPeriod() == |seconds|)
      && (opt.freq.Secondly? ==> opt.TimesPerPeriod() == 1)
  {
    var hours, minutes, seconds :=
      Choices(opt.byHour, opt.hour), Choices(opt.byMinute, opt.minute), Choices(opt.bySecond, opt.second);
    ListCardinality(opt.byHour);
    ListCardinality(opt.byMinute);
    ListCardinality(opt.bySecond);
    PairCardinality(minutes, seconds);
    PairCardinality(hours, Pairs(minutes, seconds));
    assert |hours| == OneIfEmpty(opt.byHour) && |minutes| == OneIfEmpty(opt.byMinute) && |seconds| == OneIfEmpty(opt.bySecond);
    assert |hours| * |minutes| * |seconds| == |hours| * (|minutes| * |seconds|);
  }

  // --- Clock readings ------------------------------------------------------------------------------------

  lemma Grows(a: nat, b: nat, s: nat)
    ensures b <= s ==> a * b <= a * s
  {
    assert a * s == a * (s - b) + a * b;
  }

  /** Remainders by a product split into a quotient and a remainder. */
  lemma FoldTime(t: nat, a: nat, b: nat)
    requires 0 < a && 0 < b
    ensures 0 < a * b && (t % (a * b)) / a == (t / a) % b && (t % (a * b)) % a == t % a
  {
    assert 0 < a * b by { ScaleUp(a, b); }
    var q, r := t / (a * b), t % (a * b);
    Divided(t, a * b);
    Divided(r, a);
    var s := r / a;
    Grows(a, b, s);
    assert (a * b) * q == a * (b * q);
    assert t == a * (b * q + s) + r % a by { assert a * (b * q + s) == a * (b * q) + a * s; }
    Remainder(a, b * q + s, r % a);
    Remainder(b, q, s);
  }

  /** Step `n` of a sub-daily rule fires exactly when its clock reading passes the selectors down to its unit. */
  lemma ClockFiresMeans(opt: RuleOption, n: nat)
    requires opt.WellFormed() && Normalized(opt) && opt.freq.SubDaily()
    ensures var unit := (match opt.freq case Hourly => 3600 case Minutely => 60 case _ => 1);
            var t := opt.hour * 3600 + opt.minute * 60 + opt.second + unit * (opt.Interval() * n);
            ClockFires(opt)(n) <==>
              && (opt.byHour == [] || (t / 3600) % 24 in opt.byHour)
              && (opt.freq.Hourly? || opt.byMinute == [] || (t / 60) % 60 in opt.byMinute)
              && (!opt.freq.Secondly? || opt.bySecond == [] || t % 60 in opt.bySecond)
  {
    if opt.freq.Hourly? {
      HourFires(opt, n);
    } else if opt.freq.Minutely? {
      MinuteFires(opt, n);
    } else {
      SecondFires(opt, n);
    }
  }

  lemma HourFires(opt: RuleOption, n: nat)
    requires opt.WellFormed() && Normalized(opt) && opt.freq.Hourly?
    ensures var t := opt.hour * 3600 + opt.minute * 60 + opt.second + 3600 * (opt.Interval() * n);
            ClockFires(opt)(n) <==> opt.byHour == [] || (t / 3600) % 24 in opt.byHour
  {
    hide Contains;
    var steps := opt.Interval() * n;
    Quotient(opt.hour * 3600 + opt.minute * 60 + opt.second + 3600 * steps, 3600, opt.hour + steps);
  }

  lemma MinuteFires(opt: RuleOption, n: nat)
    requires opt.WellFormed() && Normalized(opt) && opt.freq.Minutely?
    ensures var t := opt.hour * 3600 + opt.minute * 60 + opt.second + 60 * (opt.Interval() * n);
            ClockFires(opt)(n) <==>
              && (opt.byHour == [] || (t / 3600) % 24 in opt.byHour)
              && (opt.byMinute == [] || (t / 60) % 60 in opt.byMinute)
  {
    hide Contains;
    var steps := opt.Interval() * n;
    var m := opt.hour * 60 + opt.minute + steps;
    var t := opt.hour * 3600 + opt.minute * 60 + opt.second + 60 * steps;
    Quotient(t, 60, m);
    FoldTime(m, 60, 24);
    Divided(m, 60);
    Quotient(t, 3600, m / 60);
  }

  lemma SecondFires(opt: RuleOption, n: nat)
    requires opt.WellFormed() && Normalized(opt) && opt.freq.Secondly?
    ensures var t := opt.hour * 3600 + opt.minute * 60 + opt.second + opt.Interval() * n;
            ClockFires(opt)(n) <==>
              && (opt.byHour == [] || (t / 3600) % 24 in opt.byHour)
              && (opt.byMinute == [] || (t / 60) % 60 in opt.byMinute)
              && (opt.bySecond == [] || t % 60 in opt.bySecond)
  {
    hide Contains;
    var t := opt.hour * 3600 + opt.minute * 60 + opt.second + opt.Interval() * n;
    FoldTime(t, 3600, 24);
    FoldTime(t, 60, 1440);
    FoldTime(t / 60, 60, 24);
  }
}
