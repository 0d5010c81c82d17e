/**
 Date selectors of YEARLY, MONTHLY, WEEKLY and DAILY rules: which civil days
 match, how many match in a period, and why one Gregorian cycle of periods
 stands for every period there will ever be.
 */
module DateSelectors {
  import opened Arithmetic
  import opened CyclicGap
  import opened Gregorian
  import opened RecurrenceRules

  /** The day `weekStart` on or before `date`. */
  function WeekStart(date: int, weekStart: int): (s: int)
    ensures 0 <= weekStart < 7 ==> s <= date < s + 7 && Weekday(s) == weekStart
  {
    var delta := (Weekday(date) - weekStart + 7) % 7;
    assert 0 <= weekStart < 7 ==> Weekday(date - delta) == weekStart by {
      var w := Weekday(date);
      assert delta == w - weekStart || delta == w - weekStart + 7 || !(0 <= weekStart < 7);
    }
    date - delta
  }

  /** The start of the week holding 4 January. */
  function FirstWeekStart(year: int, weekStart: int): int {
    WeekStart(Date(year, 1, 4), weekStart)
  }

  /** The year whose week numbering holds `date`. */
  function WeekYear(date: int, weekStart: int): int {
    var year := Year(date);
    if date < FirstWeekStart(year, weekStart) then year - 1
    else if date < FirstWeekStart(year + 1, weekStart) then year
    else year + 1
  }

  /** The week number of `date`, counted from the front and from the back. */
  function WeekNumbers(date: int, weekStart: int): (int, int) {
    var weekYear := WeekYear(date, weekStart);
    var first := FirstWeekStart(weekYear, weekStart);
    var week := (date - first) / 7 + 1;
    var weeks := (FirstWeekStart(weekYear + 1, weekStart) - first) / 7;
    (week, week - weeks - 1)
  }

  predicate WeekNumberMatches(date: int, weekStart: int, selectors: seq<int>) {
    var (week, negative) := WeekNumbers(date, weekStart);
    Contains(selectors, week) || Contains(selectors, negative)
  }

  /** The ordinals, from the front and from the back, of a date among equal weekdays. */
  function WeekdayOrdinals(opt: RuleOption, date: int): (int, int) {
    var ofYear := opt.freq.Yearly? && opt.byMonth == [];
    var day := if ofYear then YearDay(date) else DayOfMonth(date);
    var lastDay := if ofYear then DaysInYear(Year(date)) else DaysInMonth(Year(date), Month(date));
    ((day - 1) / 7 + 1, -((lastDay - day) / 7 + 1))
  }

  predicate WeekdaysMatch(opt: RuleOption, date: int) {
    var weekday := Weekday(date);
    var (positive, negative) := WeekdayOrdinals(opt, date);
    && ((forall s :: s in opt.byWeekday ==> s.n != 0) ||
        exists s :: s in opt.byWeekday && s.n == 0 && s.day == weekday)
    && ((forall s :: s in opt.byWeekday ==> s.n == 0) ||
        exists s :: s in opt.byWeekday && s.n != 0 && s.day == weekday && (s.n == positive || s.n == negative))
  }

  predicate DateMatches(opt: RuleOption, date: int) {
    var monthLength, yearLength := DaysInMonth(Year(date), Month(date)), DaysInYear(Year(date));
    && (opt.byMonth == [] || Contains(opt.byMonth, Month(date)))
    && (opt.byMonthDay == [] || Contains(opt.byMonthDay, DayOfMonth(date)) ||
        Contains(opt.byMonthDay, DayOfMonth(date) - monthLength - 1))
    && (opt.byYearDay == [] || Contains(opt.byYearDay, YearDay(date)) ||
        Contains(opt.byYearDay, YearDay(date) - yearLength - 1))
    && (opt.byWeekNo == [] || WeekNumberMatches(date, opt.weekStart, opt.byWeekNo))
    && WeekdaysMatch(opt, date)
  }

  /** The weekday selectors, plain and ordinal, gathered in one pass. */
  method MatchWeekdays(opt: RuleOption, date: int) returns (matches: bool)
    ensures matches == WeekdaysMatch(opt, date)
  {
    hide Weekday, WeekdayOrdinals;
    var weekday := Weekday(date);
    var (positive, negative) := WeekdayOrdinals(opt, date);
    var hasPlain, plainMatch, hasOrdinal, ordinalMatch := false, false, false, false;
    for i := 0 to |opt.byWeekday|
      invariant hasPlain == exists j :: 0 <= j < i && opt.byWeekday[j].n == 0
      invariant plainMatch == exists j :: 0 <= j < i && opt.byWeekday[j].n == 0 && opt.byWeekday[j].day == weekday
      invariant hasOrdinal == exists j :: 0 <= j < i && opt.byWeekday[j].n != 0
      invariant ordinalMatch == exists j :: 0 <= j < i && opt.byWeekday[j].n != 0 && opt.byWeekday[j].day == weekday &&
                                            (opt.byWeekday[j].n == positive || opt.byWeekday[j].n == negative)
    {
      var selector := opt.byWeekday[i];
      if selector.n == 0 {
        hasPlain := true;
        plainMatch := plainMatch || selector.day == weekday;
      } else {
        hasOrdinal := true;
        if selector.day == weekday {
          ordinalMatch := ordinalMatch || selector.n == positive || selector.n == negative;
        }
      }
    }
    matches := (!hasPlain || plainMatch) && (!hasOrdinal || ordinalMatch);
  }

  /** Month and year lengths come from carrying dates; the answer is the closed form. */
  method MatchDate(opt: RuleOption, date: int) returns (matches: bool)
    ensures matches == DateMatches(opt, date)
  {
    hide Contains, WeekNumberMatches, WeekdaysMatch, Leap, DaysInMonth, Date, Year, Month, DayOfMonth, YearDay;
    if opt.byMonth != [] && !Contains(opt.byMonth, Month(date)) {
      return false;
    }
    LastDayByCarry(Year(date), Month(date));
    var daysInMonth := DayOfMonth(Date(Year(date), Month(date) + 1, 0));
    if opt.byMonthDay != [] && !Contains(opt.byMonthDay, DayOfMonth(date)) &&
       !Contains(opt.byMonthDay, DayOfMonth(date) - daysInMonth - 1)
    {
      return false;
    }
    LeapByCarry(Year(date));
    var daysInYear := if Month(Date(Year(date), 2, 29)) == 2 then 366 else 365;
    if opt.byYearDay != [] && !Contains(opt.byYearDay, YearDay(date)) &&
       !Contains(opt.byYearDay, YearDay(date) - daysInYear - 1)
    {
      return false;
    }
    if opt.byWeekNo != [] && !WeekNumberMatches(date, opt.weekStart, opt.byWeekNo) {
      return false;
    }
    matches := MatchWeekdays(opt, date);
  }

  /**
   What DTSTART stands for when no date selector but BYMONTH is given: its month and day
   for a yearly rule, its day for a monthly one, its weekday for a weekly one. BYMONTH,
   where given, takes the place of the month.
   */
  lemma DefaultsMean(opt: RuleOption, date: int)
    requires opt.byWeekNo == [] && opt.byYearDay == [] && opt.byMonthDay == [] && opt.byWeekday == [] && opt.byEaster == []
    ensures DateMatches(NormalizeDateDefaults(opt), date) <==>
      && (if opt.byMonth != [] then Contains(opt.byMonth, Month(date))
          else opt.freq.Yearly? ==> Month(date) == Month(opt.startDay))
      && (opt.freq.Yearly? || opt.freq.Monthly? ==> DayOfMonth(date) == DayOfMonth(opt.startDay))
      && (opt.freq.Weekly? ==> Weekday(date) == Weekday(opt.startDay))
  {
    hide Year, Month, DayOfMonth, DaysInMonth, YearDay, WeekNumbers, WeekdayOrdinals, Weekday;
    MonthDayBound(date);
    MonthDayBound(opt.startDay);
    var normal := NormalizeDateDefaults(opt);
    if opt.freq.Weekly? {
      assert normal.byWeekday[0] in normal.byWeekday;
    }
  }

  lemma MonthDayBound(date: int)
    ensures 1 <= DayOfMonth(date) <= DaysInMonth(Year(date), Month(date))
  {
    hide Year, YearDay, DaysBeforeMonth;
  }

  /** Matching days in `[first, end)`. */
  function CountMatches(opt: RuleOption, first: int, end: int): (c: nat)
    ensures first <= end ==> c <= end - first
    decreases end - first
  {
    if end <= first then 0 else CountMatches(opt, first, end - 1) + if DateMatches(opt, end - 1) then 1 else 0
  }

  /** First day of period `n`. */
  function PeriodStart(opt: RuleOption, n: nat): int {
    var steps := opt.Interval() * n;
    match opt.freq
    case Yearly => DaysBeforeYear(Year(opt.startDay) + steps)
    case Monthly => MonthStart(MonthIndex(opt.startDay) + steps)
    case Weekly => WeekStart(opt.startDay, opt.weekStart) + 7 * steps
    case _ => opt.startDay + steps
  }

  /** Day after the last day of period `n`. */
  function PeriodEnd(opt: RuleOption, n: nat): int {
    var steps := opt.Interval() * n;
    match opt.freq
    case Yearly => DaysBeforeYear(Year(opt.startDay) + steps + 1)
    case Monthly => MonthStart(MonthIndex(opt.startDay) + steps + 1)
    case Weekly => PeriodStart(opt, n) + 7
    case _ => PeriodStart(opt, n) + 1
  }

  /** Periods are never empty; their longest length depends on the frequency. */
  function LongestPeriod(freq: Frequency): nat {
    match freq
    case Yearly => 366
    case Monthly => 31
    case Weekly => 7
    case _ => 1
  }

  lemma PeriodBounds(opt: RuleOption, n: nat)
    ensures PeriodStart(opt, n) < PeriodEnd(opt, n) <= PeriodStart(opt, n) + LongestPeriod(opt.freq)
  {
    hide Year, MonthIndex, MonthStart, DaysBeforeYear, WeekStart;
    var steps := opt.Interval() * n;
    if opt.freq.Yearly? {
      YearSpan(Year(opt.startDay) + steps);
    } else if opt.freq.Monthly? {
      MonthSpan(MonthIndex(opt.startDay) + steps);
    }
  }

  function MatchesInPeriod(opt: RuleOption, n: nat): nat {
    CountMatches(opt, PeriodStart(opt, n), PeriodEnd(opt, n))
  }

  /** Specification: can period `n` produce an occurrence? */
  function PeriodFires(opt: RuleOption): nat -> bool {
    (n: nat) => opt.SetPosCanSelect(MatchesInPeriod(opt, n) * opt.TimesPerDate())
  }

  /** The work charged for a period with `matches` matching days. */
  function PeriodWork(opt: RuleOption, matches: nat): int {
    var candidates := matches * opt.TimesPerDate();
    if opt.bySetPos != [] then
      Max(Max(opt.TimesPerDate(), matches), SaturatingMultiply(Max(1, matches), |opt.bySetPos|))
    else if 0 < opt.count < candidates then opt.count
    else candidates
  }

  function Max(a: int, b: int): int {
    if a < b then b else a
  }

  /** The modulus of the period phase. */
  function PhaseBase(opt: RuleOption): (b: nat)
    ensures 1 <= b
  {
    match opt.freq
    case Yearly => 400
    case Monthly => 4800
    case Weekly => 20871
    case _ => if opt.HasOnlyWeekdaySelectors() then 7 else DAYS_PER_CYCLE
  }

  // --- Week numbering ----------------------------------------------------------------

  /** Of two equal weekdays, one not seven days before the other is not before it. */
  lemma SameWeekdayStep(a: int, b: int)
    requires a % 7 == b % 7 && a < b + 7
    ensures a <= b
  {
  }

  lemma WholeWeeks(a: int, b: int)
    requires a % 7 == b % 7
    ensures a - b == 7 * ((a - b) / 7)
  {
  }

  lemma FirstWeekBounds(year: int, weekStart: int)
    requires 0 <= weekStart < 7
    ensures DaysBeforeYear(year) - 3 <= FirstWeekStart(year, weekStart) <= DaysBeforeYear(year) + 3
    ensures Weekday(FirstWeekStart(year, weekStart)) == weekStart
  {
    hide DaysBeforeYear, Weekday, WeekStart;
    Quotient(0, 12, 0);
    assert Date(year, 1, 4) == DaysBeforeYear(year) + 3;
  }

  /** A week belongs to the year of its fourth day. */
  lemma WeekYearByFourthDay(date: int, weekStart: int)
    requires 0 <= weekStart < 7
    ensures WeekYear(date, weekStart) == Year(WeekStart(date, weekStart) + 3)
    ensures FirstWeekStart(WeekYear(date, weekStart), weekStart) <= WeekStart(date, weekStart)
    ensures date < FirstWeekStart(WeekYear(date, weekStart) + 1, weekStart)
  {
    hide DaysBeforeYear, WeekStart, FirstWeekStart, Year;
    var w := WeekStart(date, weekStart);
    var y := Year(w + 3);
    FirstWeekBounds(y, weekStart);
    FirstWeekBounds(y + 1, weekStart);
    var f, g := FirstWeekStart(y, weekStart), FirstWeekStart(y + 1, weekStart);
    SameWeekdayStep(f, w);
    SameWeekdayStep(w + 7, g);
    assert f <= date < g;
    WeekYearUnique(date, weekStart, y);
  }

  lemma WeekYearUnique(date: int, weekStart: int, y: int)
    requires 0 <= weekStart < 7
    requires FirstWeekStart(y, weekStart) <= date < FirstWeekStart(y + 1, weekStart)
    ensures WeekYear(date, weekStart) == y
  {
    hide DaysBeforeYear, FirstWeekStart, Year;
    var year := Year(date);
    FirstWeekBounds(year - 1, weekStart);
    FirstWeekBounds(year, weekStart);
    FirstWeekBounds(year + 1, weekStart);
    FirstWeekBounds(year + 2, weekStart);
    YearsAscend(year - 1, year);
    YearsAscend(year, year + 1);
    YearsAscend(year + 1, year + 2);
    if y < year - 1 {
      YearsAscend(y + 1, year - 1);
      FirstWeekBounds(y + 1, weekStart);
    } else if y > year + 1 {
      YearsAscend(year + 2, y);
      FirstWeekBounds(y, weekStart);
    }
  }

  /** Week numbers run from 1 to at most 53, and from the back from -1. */
  lemma WeekNumberRange(date: int, weekStart: int)
    requires 0 <= weekStart < 7
    ensures var (week, negative) := WeekNumbers(date, weekStart);
            && 1 <= week <= 53 && -53 <= negative <= -1
            && WeekStart(date, weekStart) == FirstWeekStart(WeekYear(date, weekStart), weekStart) + 7 * (week - 1)
            && WeekStart(date, weekStart) == FirstWeekStart(WeekYear(date, weekStart) + 1, weekStart) + 7 * negative
  {
    hide DaysBeforeYear, WeekYear, WeekStart, FirstWeekStart, Year;
    var y := WeekYear(date, weekStart);
    WeekYearByFourthDay(date, weekStart);
    FirstWeekBounds(y, weekStart);
    FirstWeekBounds(y + 1, weekStart);
    YearSpan(y);
    var w, f, g := WeekStart(date, weekStart), FirstWeekStart(y, weekStart), FirstWeekStart(y + 1, weekStart);
    WholeWeeks(w, f);
    WholeWeeks(g, f);
    Quotient(date - f, 7, (w - f) / 7);
  }

  // --- Periodicity -----------------------------------------------------------------

  lemma WeekStartPeriodic(date: int, weekStart: int, k: int)
    ensures WeekStart(date + DAYS_PER_CYCLE * k, weekStart) == WeekStart(date, weekStart) + DAYS_PER_CYCLE * k
  {
    CycleWeekday(date, k);
  }

  lemma FirstWeekPeriodic(year: int, weekStart: int, k: int)
    ensures FirstWeekStart(year + 400 * k, weekStart) == FirstWeekStart(year, weekStart) + DAYS_PER_CYCLE * k
  {
    CycleYear(year, k);
    assert Date(year + 400 * k, 1, 4) == Date(year, 1, 4) + DAYS_PER_CYCLE * k;
    WeekStartPeriodic(Date(year, 1, 4), weekStart, k);
  }

  lemma WeekYearPeriodic(date: int, weekStart: int, k: int)
    ensures WeekYear(date + DAYS_PER_CYCLE * k, weekStart) == WeekYear(date, weekStart) + 400 * k
  {
    hide Year, FirstWeekStart;
    CyclePeriodic(date, k);
    FirstWeekPeriodic(Year(date), weekStart, k);
    FirstWeekPeriodic(Year(date) + 1, weekStart, k);
    assert Year(date) + 400 * k + 1 == Year(date) + 1 + 400 * k;
  }

  lemma WeekNumberPeriodic(date: int, weekStart: int, k: int)
    ensures WeekNumbers(date + DAYS_PER_CYCLE * k, weekStart) == WeekNumbers(date, weekStart)
  {
    hide WeekYear, FirstWeekStart;
    var weekYear := WeekYear(date, weekStart);
    WeekYearPeriodic(date, weekStart, k);
    FirstWeekPeriodic(weekYear, weekStart, k);
    FirstWeekPeriodic(weekYear + 1, weekStart, k);
    assert weekYear + 400 * k + 1 == weekYear + 1 + 400 * k;
  }

  /** A day matches exactly when the day 400·k years later does. */
  lemma DateMatchesPeriodic(opt: RuleOption, date: int, k: int)
    ensures DateMatches(opt, date + DAYS_PER_CYCLE * k) == DateMatches(opt, date)
  {
    hide Year, Month, YearDay, DayOfMonth, Weekday, WeekNumbers, Contains;
    CyclePeriodic(date, k);
    CycleYear(Year(date), k);
    WeekNumberPeriodic(date, opt.weekStart, k);
  }

  lemma {:induction false} CountPeriodic(opt: RuleOption, first: int, end: int, k: int)
    ensures CountMatches(opt, first + DAYS_PER_CYCLE * k, end + DAYS_PER_CYCLE * k) == CountMatches(opt, first, end)
    decreases end - first
  {
    hide DateMatches;
    if first < end {
      CountPeriodic(opt, first, end - 1, k);
      DateMatchesPeriodic(opt, end - 1, k);
      assert end + DAYS_PER_CYCLE * k - 1 == end - 1 + DAYS_PER_CYCLE * k;
    }
  }

  /** Rules with nothing but plain weekdays repeat every seven days. */
  lemma WeekdayOnlyPeriodic(opt: RuleOption, date: int, k: int)
    requires opt.HasOnlyWeekdaySelectors() && forall s :: s in opt.byWeekday ==> s.n == 0
    ensures DateMatches(opt, date + 7 * k) == DateMatches(opt, date)
  {
    hide Year, Month, YearDay, DayOfMonth, WeekdayOrdinals, WeekNumbers;
    WholeTurns(date, 7, k);
  }

  /** The DAILY weekday-only shortcut is sound only when no selector carries an ordinal. */
  predicate Supported(opt: RuleOption) {
    opt.freq.Yearly? || opt.freq.Monthly? || forall s :: s in opt.byWeekday ==> s.n == 0
  }

  /** Periods a whole number of bases apart have the same number of matches. */
  lemma PhasePeriodic(opt: RuleOption, m: nat, n: nat, k: nat)
    requires !opt.freq.SubDaily() && Supported(opt)
    requires opt.Interval() * n == opt.Interval() * m + PhaseBase(opt) * k
    ensures MatchesInPeriod(opt, n) == MatchesInPeriod(opt, m)
  {
    hide DateMatches, CountMatches, Year, MonthIndex, MonthStart, DaysBeforeYear, WeekStart;
    if opt.freq.Daily? {
      OneDay(opt, m);
      OneDay(opt, n);
      if opt.HasOnlyWeekdaySelectors() {
        WeekdayOnlyPeriodic(opt, PeriodStart(opt, m), k);
      } else {
        DateMatchesPeriodic(opt, PeriodStart(opt, m), k);
      }
    } else {
      PeriodShift(opt, m, n, k);
      CountPeriodic(opt, PeriodStart(opt, m), PeriodEnd(opt, m), k);
    }
  }

  lemma PeriodShift(opt: RuleOption, m: nat, n: nat, k: nat)
    requires opt.freq.Yearly? || opt.freq.Monthly? || opt.freq.Weekly?
    requires opt.Interval() * n == opt.Interval() * m + PhaseBase(opt) * k
    ensures PeriodStart(opt, n) == PeriodStart(opt, m) + DAYS_PER_CYCLE * k
    ensures PeriodEnd(opt, n) == PeriodEnd(opt, m) + DAYS_PER_CYCLE * k
  {
    hide Year, MonthIndex, MonthStart, DaysBeforeYear, WeekStart;
    var steps := opt.Interval() * m;
    if opt.freq.Yearly? {
      var year := Year(opt.startDay) + steps;
      CycleYear(year, k);
      CycleYear(year + 1, k);
      assert year + 400 * k + 1 == year + 1 + 400 * k;
    } else if opt.freq.Monthly? {
      var month := MonthIndex(opt.startDay) + steps;
      CycleMonth(month, k);
      CycleMonth(month + 1, k);
      assert month + 4800 * k + 1 == month + 1 + 4800 * k;
    }
  }

  lemma OneDay(opt: RuleOption, n: nat)
    requires opt.freq.Daily?
    ensures MatchesInPeriod(opt, n) == if DateMatches(opt, PeriodStart(opt, n)) then 1 else 0
  {
    hide DateMatches, PeriodStart;
    var s := PeriodStart(opt, n);
    assert CountMatches(opt, s, s) == 0;
  }

  /** One cycle of periods tabulates all periods: the match count of period `n` is that of `n` modulo the cycle. */
  lemma PeriodResidue(opt: RuleOption, n: nat)
    requires !opt.freq.SubDaily() && Supported(opt)
    ensures MatchesInPeriod(opt, n) == MatchesInPeriod(opt, n % CycleLength(opt.Interval(), PhaseBase(opt)))
  {
    var k := ResiduePhase(opt.Interval(), PhaseBase(opt), n);
    PhasePeriodic(opt, n % CycleLength(opt.Interval(), PhaseBase(opt)), n, k);
  }
}
