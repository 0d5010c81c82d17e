/**
 The preflight of a recurrence rule: before any occurrence is generated, a bounded
 scan decides whether the rule can ever fire and how long its longest empty gap is.
 */
module SelectorSafety {
  import opened Arithmetic
  import opened CyclicGap
  import opened Gregorian
  import opened RecurrenceRules
  import opened ClockSelectors
  import opened DateSelectors

  /** Specification: can period `n` of the rule produce an occurrence? */
  function Fires(opt: RuleOption): nat -> bool {
    if opt.freq.SubDaily() then
      (n: nat) => ClockFires(opt)(n) && opt.SetPosCanSelect(opt.TimesPerPeriod())
    else
      PeriodFires(NormalizeDateDefaults(opt))
  }

  /** `w` is the largest work of any period, at any time. */
  ghost predicate IsLargestWork(opt: RuleOption, w: int) {
    && (forall n: nat :: PeriodWork(opt, MatchesInPeriod(opt, n)) <= w)
    && (exists n: nat :: PeriodWork(opt, MatchesInPeriod(opt, n)) == w)
  }

  predicate HasMisplacedOrdinal(opt: RuleOption) {
    !Supported(opt)
  }

  /** Frequencies whose default day is missing from some periods. */
  predicate NeedsDefaultCycle(opt: RuleOption) {
    || (opt.freq.Yearly? && Month(opt.startDay) == 2 && DayOfMonth(opt.startDay) == 29)
    || (opt.freq.Monthly? && DayOfMonth(opt.startDay) > 28)
  }

  // --- Counting the matching days of one period ---------------------------------------

  /** The day after the period that starts on `start`, by date arithmetic. */
  function PeriodLimit(freq: Frequency, start: int): int {
    match freq
    case Yearly => AddDate(start, 1, 0, 0)
    case Monthly => AddDate(start, 0, 1, 0)
    case Weekly => AddDate(start, 0, 0, 7)
    case _ => AddDate(start, 0, 0, 1)
  }

  function NextPeriod(opt: RuleOption, start: int): int {
    match opt.freq
    case Yearly => AddDate(start, opt.Interval(), 0, 0)
    case Monthly => AddDate(start, 0, opt.Interval(), 0)
    case Weekly => AddDate(start, 0, 0, opt.Interval() * 7)
    case _ => AddDate(start, 0, 0, opt.Interval())
  }

  function FirstPeriod(opt: RuleOption): int {
    match opt.freq
    case Yearly => Date(Year(opt.startDay), 1, 1)
    case Monthly => Date(Year(opt.startDay), Month(opt.startDay), 1)
    case Weekly => WeekStart(opt.startDay, opt.weekStart)
    case _ => Date(Year(opt.startDay), Month(opt.startDay), DayOfMonth(opt.startDay))
  }

  /** Date arithmetic from period to period follows the closed form. */
  lemma PeriodSteps(opt: RuleOption, n: nat)
    requires !opt.freq.SubDaily()
    ensures PeriodLimit(opt.freq, PeriodStart(opt, n)) == PeriodEnd(opt, n)
    ensures NextPeriod(opt, PeriodStart(opt, n)) == PeriodStart(opt, n + 1)
  {
    hide Year, MonthIndex, MonthStart, DaysBeforeYear, AddDate, WeekStart;
    var steps := opt.Interval() * n;
    assert opt.Interval() * (n + 1) == steps + opt.Interval();
    if opt.freq.Yearly? {
      AddYears(Year(opt.startDay) + steps, 1);
      AddYears(Year(opt.startDay) + steps, opt.Interval());
    } else if opt.freq.Monthly? {
      AddMonths(MonthIndex(opt.startDay) + steps, 1);
      AddMonths(MonthIndex(opt.startDay) + steps, opt.Interval());
    } else {
      AddDays(PeriodStart(opt, n), PeriodEnd(opt, n) - PeriodStart(opt, n));
      AddDays(PeriodStart(opt, n), opt.Interval() * 7);
      AddDays(PeriodStart(opt, n), opt.Interval());
    }
  }

  lemma FirstPeriodIsZero(opt: RuleOption)
    requires !opt.freq.SubDaily()
    ensures FirstPeriod(opt) == PeriodStart(opt, 0)
  {
    hide Year, Month, DayOfMonth, DaysBeforeYear, WeekStart;
    CivilRoundTrip(opt.startDay);
    assert opt.Interval() * 0 == 0;
    Quotient(Month(opt.startDay) - 1, 12, 0);
    Remainder(12, Year(opt.startDay), Month(opt.startDay) - 1);
  }

  method MatchingDatesInPeriod(opt: RuleOption, start: int, aggregate: int)
    returns (matches: nat, ok: bool, aggregate': int)
    requires start <= PeriodLimit(opt.freq, start)
    ensures ok <==> start == PeriodLimit(opt.freq, start) || PeriodLimit(opt.freq, start) - start <= aggregate
    ensures ok ==> matches == CountMatches(opt, start, PeriodLimit(opt.freq, start))
    ensures ok ==> aggregate' == aggregate - (PeriodLimit(opt.freq, start) - start)
    ensures aggregate' <= aggregate
  {
    hide AddDate, DateMatches;
    var end := PeriodLimit(opt.freq, start);
    matches, aggregate' := 0, aggregate;
    var date := start;
    while date < end
      invariant start <= date <= end
      invariant matches == CountMatches(opt, start, date)
      invariant aggregate' == aggregate - (date - start)
      invariant date == start || 0 <= aggregate'
    {
      if aggregate' < 1 {
        return 0, false, aggregate';
      }
      aggregate' := aggregate' - 1;
      var selected := MatchDate(opt, date);
      if selected {
        matches := matches + 1;
      }
      AddDays(date, 1);
      date := AddDate(date, 0, 0, 1);
    }
    ok := true;
  }

  // --- The cost of a scan -------------------------------------------------------------

  /** Days in the first `n` periods: what scanning them charges. */
  function ScanCost(opt: RuleOption, n: nat): (cost: int) {
    if n == 0 then 0 else ScanCost(opt, n - 1) + PeriodEnd(opt, n - 1) - PeriodStart(opt, n - 1)
  }

  lemma {:induction false} ScanCostGrows(opt: RuleOption, m: nat, n: nat)
    requires m <= n
    ensures ScanCost(opt, m) + (n - m) <= ScanCost(opt, n) <= ScanCost(opt, m) + LongestPeriod(opt.freq) * (n - m)
  {
    hide PeriodStart, PeriodEnd, LongestPeriod;
    if m < n {
      ScanCostGrows(opt, m, n - 1);
      PeriodBounds(opt, n - 1);
    }
  }

  /** The days a whole date scan visits: one cycle of periods. */
  function WholeScan(opt: RuleOption): int {
    ScanCost(opt, CycleLength(opt.Interval(), PhaseBase(opt)))
  }

  /** No scan visits more than 4800 months of 31 days, and a weekday-only daily scan at most a week. */
  lemma WholeScanBound(opt: RuleOption)
    requires !opt.freq.SubDaily()
    ensures 0 < WholeScan(opt) <= 148800
    ensures (&& opt.freq.Daily? && opt.byWeekday != [] && opt.byMonth == [] && opt.byMonthDay == []
             && opt.byYearDay == [] && opt.byWeekNo == [] && opt.byEaster == []) ==> WholeScan(opt) <= 7
  {
    hide CycleLength, PeriodStart, PeriodEnd;
    ScanCostGrows(opt, 0, CycleLength(opt.Interval(), PhaseBase(opt)));
  }

  // --- The date scan ------------------------------------------------------------------

  /** The states and the largest work of the first `count` periods. */
  ghost predicate Scanned(opt: RuleOption, states: seq<bool>, work: int) {
    && (forall j: nat :: j < |states| ==> states[j] == PeriodFires(opt)(j))
    && (forall j: nat :: j < |states| ==> PeriodWork(opt, MatchesInPeriod(opt, j)) <= work)
    && (|states| > 0 ==> exists j: nat :: j < |states| && PeriodWork(opt, MatchesInPeriod(opt, j)) == work)
    && 0 <= work
  }

  lemma WorkNonNegative(opt: RuleOption, matches: nat)
    ensures 0 <= PeriodWork(opt, matches)
  {
  }

  lemma ScannedStep(opt: RuleOption, states: seq<bool>, work: int, matches: nat, work': int)
    requires Scanned(opt, states, work) && (states == [] ==> work == 0)
    requires matches == MatchesInPeriod(opt, |states|)
    requires work' == Max(work, PeriodWork(opt, matches))
    ensures Scanned(opt, states + [opt.SetPosCanSelect(matches * opt.TimesPerDate())], work')
  {
    hide MatchesInPeriod, PeriodWork;
    WorkNonNegative(opt, matches);
    var longer := states + [opt.SetPosCanSelect(matches * opt.TimesPerDate())];
    if states != [] {
      var j: nat :| j < |states| && PeriodWork(opt, MatchesInPeriod(opt, j)) == work;
      assert PeriodWork(opt, MatchesInPeriod(opt, if work' == work then j else |states|)) == work';
    } else {
      assert PeriodWork(opt, MatchesInPeriod(opt, 0)) == work';
    }
  }

  method FillDateTable(opt: RuleOption, aggregate: int, canceled: nat -> bool)
    returns (safety: Verdict, states: seq<bool>, maxWork: int, aggregate': int)
    requires !opt.freq.SubDaily() && Supported(opt)
    ensures safety.Safe? || safety.Canceled? || safety.Excessive?
    ensures safety.Safe? ==> |states| == CycleLength(opt.Interval(), PhaseBase(opt))
    ensures safety.Safe? ==> Scanned(opt, states, maxWork) && maxWork <= MAX_EXPANSION_WORK
    ensures safety.Canceled? ==> exists i: nat :: canceled(i)
    ensures safety.Excessive? ==>
              aggregate < WholeScan(opt) || exists n: nat :: PeriodWork(opt, MatchesInPeriod(opt, n)) > MAX_EXPANSION_WORK
    ensures safety.Safe? ==> aggregate' == aggregate - WholeScan(opt) && 0 <= aggregate'
    ensures aggregate' <= aggregate
  {
    hide MatchesInPeriod, PeriodWork, FirstPeriod, NextPeriod, PeriodLimit, PeriodStart, PeriodEnd, Gcd;
    var base := PhaseBase(opt);
    var gcd := GreatestCommonDivisor(opt.Interval(), base);
    CycleBound(opt.Interval(), base);
    var cycle := base / gcd;
    assert cycle == CycleLength(opt.Interval(), base);
    var periodStart := FirstPeriod(opt);
    FirstPeriodIsZero(opt);
    states, maxWork, aggregate' := [], 0, aggregate;
    for i := 0 to cycle
      invariant |states| == i
      invariant Scanned(opt, states, maxWork) && maxWork <= MAX_EXPANSION_WORK
      invariant states == [] ==> maxWork == 0
      invariant periodStart == PeriodStart(opt, i)
      invariant aggregate' == aggregate - ScanCost(opt, i) <= aggregate && (i == 0 || 0 <= aggregate')
    {
      if i % 256 == 0 && canceled(i) {
        return Canceled, states, maxWork, aggregate';
      }
      PeriodSteps(opt, i);
      PeriodBounds(opt, i);
      ScanCostGrows(opt, i + 1, cycle);
      var matches, ok, rest := MatchingDatesInPeriod(opt, periodStart, aggregate');
      if !ok {
        assert aggregate < ScanCost(opt, i + 1);
        return Excessive, states, maxWork, rest;
      }
      aggregate' := rest;
      assert matches == MatchesInPeriod(opt, i) by { Unfolded(opt, i); }
      var work := PeriodWork(opt, matches);
      if work > MAX_EXPANSION_WORK {
        return Excessive, states, maxWork, aggregate';
      }
      ScannedStep(opt, states, maxWork, matches, Max(maxWork, work));
      var fires := BySetPosCanSelect(opt, matches * opt.TimesPerDate());
      states := states + [fires];
      if work > maxWork {
        maxWork := work;
      }
      periodStart := NextPeriod(opt, periodStart);
    }
    safety := Safe;
  }

  lemma Unfolded(opt: RuleOption, n: nat)
    ensures MatchesInPeriod(opt, n) == CountMatches(opt, PeriodStart(opt, n), PeriodEnd(opt, n))
  {
  }

  /** One scanned cycle answers for every period. */
  lemma DateScanExact(opt: RuleOption, states: seq<bool>, work: int, gap: nat)
    requires !opt.freq.SubDaily() && Supported(opt)
    requires |states| == CycleLength(opt.Interval(), PhaseBase(opt)) && Scanned(opt, states, work)
    ensures Tabulates(PeriodFires(opt), states) && IsLargestWork(opt, work)
  {
    hide MatchesInPeriod, PeriodWork, CycleLength;
    forall n: nat
      ensures PeriodFires(opt)(n) == states[n % |states|]
      ensures PeriodWork(opt, MatchesInPeriod(opt, n)) <= work
    {
      PeriodResidue(opt, n);
      assert PeriodFires(opt)(n % |states|) == states[n % |states|];
    }
  }

  // --- Rules without date selectors ---------------------------------------------------

  lemma {:induction false} CountNone(opt: RuleOption, first: int, end: int)
    requires forall d :: first <= d < end ==> !DateMatches(opt, d)
    ensures CountMatches(opt, first, end) == 0
    decreases end - first
  {
    hide DateMatches;
    if first < end { CountNone(opt, first, end - 1); }
  }

  lemma {:induction false} CountUnique(opt: RuleOption, first: int, end: int, day: int)
    requires first <= day < end
    requires forall d :: first <= d < end ==> (DateMatches(opt, d) <==> d == day)
    ensures CountMatches(opt, first, end) == 1
    decreases end - first
  {
    hide DateMatches;
    if day == end - 1 {
      CountNone(opt, first, end - 1);
    } else {
      CountUnique(opt, first, end - 1, day);
    }
  }

  /** Every month but February has a length that does not depend on the year. */
  lemma CommonLength(a: int, b: int, month: int, day: int)
    requires 1 <= month <= 12 && 1 <= day <= DaysInMonth(a, month) && !(month == 2 && day == 29)
    ensures day <= DaysInMonth(b, month)
  {
  }

  lemma DefaultYear(opt: RuleOption, n: nat)
    requires opt.freq.Yearly? && !opt.HasDateSelectors() && !NeedsDefaultCycle(opt)
    ensures MatchesInPeriod(NormalizeDateDefaults(opt), n) == 1
  {
    hide Year, Month, DayOfMonth, DaysInMonth, DaysBeforeYear, DateMatches, CountMatches, Date, YearDay;
    var normal := NormalizeDateDefaults(opt);
    var year, month, day := Year(opt.startDay) + opt.Interval() * n, Month(opt.startDay), DayOfMonth(opt.startDay);
    MonthDayBound(opt.startDay);
    CommonLength(Year(opt.startDay), year, month, day);
    var target := Date(year, month, day);
    DateReadsBack(year, month, day);
    var first, end := PeriodStart(normal, n), PeriodEnd(normal, n);
    assert first == DaysBeforeYear(year) && end == DaysBeforeYear(year + 1);
    forall d | first <= d < end ensures DateMatches(normal, d) <==> d == target {
      DefaultsMean(opt, d);
      YearUnique(d, year);
      CivilRoundTrip(d);
    }
    CountUnique(normal, first, end, target);
  }

  lemma DefaultMonth(opt: RuleOption, n: nat)
    requires opt.freq.Monthly? && !opt.HasDateSelectors() && !NeedsDefaultCycle(opt)
    ensures MatchesInPeriod(NormalizeDateDefaults(opt), n) == 1
  {
    hide Year, Month, DayOfMonth, MonthStart, MonthIndex, DaysInMonth, DateMatches, CountMatches, YearDay;
    var normal := NormalizeDateDefaults(opt);
    var index, day := MonthIndex(opt.startDay) + opt.Interval() * n, DayOfMonth(opt.startDay);
    MonthDayBound(opt.startDay);
    MonthSpan(index);
    var first, end := PeriodStart(normal, n), PeriodEnd(normal, n);
    assert first == MonthStart(index) && end == MonthStart(index + 1);
    forall d | first <= d < end ensures DateMatches(normal, d) <==> d == first + day - 1 {
      DefaultsMean(opt, d);
      DayWithinMonth(index, d);
    }
    CountUnique(normal, first, end, first + day - 1);
  }

  lemma DayWithinMonth(index: int, date: int)
    requires MonthStart(index) <= date < MonthStart(index + 1)
    ensures DayOfMonth(date) == date - MonthStart(index) + 1
  {
    hide Year, Month, DayOfMonth, DaysInMonth, DaysBeforeYear, DaysBeforeMonth;
    var y, m := index / 12, index % 12 + 1;
    MonthSpan(index);
    var day := date - MonthStart(index) + 1;
    DateReadsBack(y, m, day);
    Quotient(m - 1, 12, 0);
    assert Date(y, m, day) == date;
  }

  lemma DefaultWeek(opt: RuleOption, n: nat)
    requires opt.freq.Weekly? && !opt.HasDateSelectors() && opt.WellFormed()
    ensures MatchesInPeriod(NormalizeDateDefaults(opt), n) == 1
  {
    hide Month, DayOfMonth, CountMatches, DateMatches;
    var normal := NormalizeDateDefaults(opt);
    var weekday := Weekday(opt.startDay);
    var first, end := PeriodStart(normal, n), PeriodEnd(normal, n);
    var target := first + (opt.startDay - WeekStart(opt.startDay, opt.weekStart));
    WholeTurns(opt.startDay, 7, opt.Interval() * n);
    assert Weekday(target) == weekday;
    forall d | first <= d < end ensures DateMatches(normal, d) <==> d == target {
      DefaultsMean(opt, d);
      SameWeekday(d, target);
    }
    CountUnique(normal, first, end, target);
  }

  lemma SameWeekday(a: int, b: int)
    requires -7 < a - b < 7
    ensures a % 7 == b % 7 <==> a == b
  {
  }

  lemma DefaultDaily(opt: RuleOption, n: nat)
    requires opt.freq.Daily? && !opt.HasDateSelectors()
    ensures MatchesInPeriod(NormalizeDateDefaults(opt), n) == 1
  {
    hide Year, Month, DayOfMonth, YearDay, DaysInMonth, WeekNumbers, WeekdayOrdinals;
    OneDay(NormalizeDateDefaults(opt), n);
  }

  /** Without selectors and off the missing-day defaults, every period has exactly one matching day. */
  lemma DefaultsAlwaysMatch(opt: RuleOption, n: nat)
    requires !opt.freq.SubDaily() && opt.WellFormed() && !opt.HasDateSelectors() && !NeedsDefaultCycle(opt)
    ensures MatchesInPeriod(NormalizeDateDefaults(opt), n) == 1
  {
    if opt.freq.Yearly? { DefaultYear(opt, n); }
    else if opt.freq.Monthly? { DefaultMonth(opt, n); }
    else if opt.freq.Weekly? { DefaultWeek(opt, n); }
    else { DefaultDaily(opt, n); }
  }

  // --- The preflight --------------------------------------------------------------------

  lemma SameSignal(f: nat -> bool, g: nat -> bool, gap: nat)
    requires forall n: nat :: f(n) == g(n)
    ensures IsLongestGap(f, gap) ==> IsLongestGap(g, gap)
    ensures Never(f) ==> Never(g)
  {
    if IsLongestGap(f, gap) {
      forall n: nat ensures HitWithin(g, n, gap) {
        assert HitWithin(f, n, gap);
      }
      var n: nat :| EmptyRun(f, n, gap);
      assert EmptyRun(g, n, gap);
    }
  }

  lemma ConstantSignal(f: nat -> bool)
    requires forall n: nat :: f(n) == f(0)
    ensures f(0) ==> IsLongestGap(f, 0)
    ensures !f(0) ==> Never(f)
  {
    if f(0) {
      forall n: nat ensures HitWithin(f, n, 0) {
        assert f(n);
      }
      assert EmptyRun(f, 0, 0);
    }
  }

  lemma DefaultSignal(opt: RuleOption)
    requires !opt.freq.SubDaily() && opt.WellFormed() && !opt.HasDateSelectors() && !NeedsDefaultCycle(opt)
    ensures var f := Fires(opt); var normal := NormalizeDateDefaults(opt);
            if normal.SetPosCanSelect(normal.TimesPerDate()) then IsLongestGap(f, 0) else Never(f)
  {
    hide MatchesInPeriod;
    var f := Fires(opt);
    forall n: nat ensures f(n) == f(0) {
      DefaultsAlwaysMatch(opt, n);
      DefaultsAlwaysMatch(opt, 0);
    }
    DefaultsAlwaysMatch(opt, 0);
    ConstantSignal(f);
  }

  /** The ways a rule is refused although its selectors may be reachable. */
  predicate RefusedOutright(opt: RuleOption) {
    opt.byEaster != [] || HasMisplacedOrdinal(opt) || (opt.freq.SubDaily() && opt.HasDateSelectors())
  }

  /** The rule's dates are settled without a scan. */
  predicate IsUnscanned(opt: RuleOption) {
    !opt.freq.SubDaily() && !opt.HasDateSelectors() && !NeedsDefaultCycle(opt)
  }

  /** The rule's dates are scanned over one cycle. */
  predicate IsScanned(opt: RuleOption) {
    !opt.freq.SubDaily() && (opt.HasDateSelectors() || NeedsDefaultCycle(opt))
  }

  /** Why a check may report excessive work; nothing else makes it do so. */
  ghost predicate MayBeExcessive(opt: RuleOption, series: int, aggregate: int) {
    var normal := NormalizeDateDefaults(opt);
    || opt.Interval() > MAX_EXPANSION_WORK
    || series < ClockStates(opt) || aggregate < ClockStates(opt)
    || (IsUnscanned(opt) && (series < 1 || aggregate < 1))
    || (IsScanned(opt) && aggregate < WholeScan(normal))
    || (IsScanned(opt) &&
        exists n: nat :: PeriodWork(normal, MatchesInPeriod(normal, n)) > MAX_EXPANSION_WORK)
    || (exists gap: nat :: gap >= MAX_EXPANSION_WORK && IsLongestGap(Fires(opt), gap))
  }

  /** The reported work of a period: exact where dates were scanned, else the times of one period. */
  ghost predicate IsReportedWork(opt: RuleOption, work: int) {
    if opt.freq.SubDaily() then work == opt.TimesPerPeriod()
    else if opt.HasDateSelectors() || NeedsDefaultCycle(opt) then IsLargestWork(NormalizeDateDefaults(opt), work)
    else work == opt.TimesPerDate()
  }

  method DateSelectorSafety(opt: RuleOption, aggregate: int, canceled: nat -> bool)
    returns (safety: Verdict, maxEmpty: nat, maxWork: int, aggregate': int)
    requires !opt.freq.SubDaily() && Supported(opt)
    ensures !safety.Unsupported?
    ensures safety.Safe? ==> IsLongestGap(PeriodFires(opt), maxEmpty) && IsLargestWork(opt, maxWork)
    ensures safety.Unreachable? ==> Never(PeriodFires(opt))
    ensures safety.Canceled? ==> exists i: nat :: canceled(i)
    ensures safety.Excessive? ==>
              || aggregate < WholeScan(opt)
              || (exists n: nat :: PeriodWork(opt, MatchesInPeriod(opt, n)) > MAX_EXPANSION_WORK)
              || (exists gap: nat :: gap >= MAX_EXPANSION_WORK && IsLongestGap(PeriodFires(opt), gap))
    ensures safety.Safe? || safety.Unreachable? ==> aggregate' == aggregate - WholeScan(opt) && 0 <= aggregate'
    ensures aggregate' <= aggregate
  {
    hide PeriodFires, MatchesInPeriod, PeriodWork, WholeScan;
    var states;
    maxEmpty := 0;
    safety, states, maxWork, aggregate' := FillDateTable(opt, aggregate, canceled);
    if safety.Safe? {
      var gap, reachable := MaximumCyclicEmptyPeriods(states);
      DateScanExact(opt, states, maxWork, gap);
      ScanIsExact(PeriodFires(opt), states, gap);
      if !reachable {
        return Unreachable, 0, 0, aggregate';
      }
      if gap >= MAX_EXPANSION_WORK {
        return Excessive, 0, 0, aggregate';
      }
      maxEmpty := gap;
    }
  }

  /** Every answer is exact for all time, and each refusal has its stated cause. */
  method SelectorSafetyCheck(opt: RuleOption, series: int, aggregate: int, canceled: nat -> bool)
    returns (safety: Verdict, maxEmpty: nat, maxWork: int, series': int, aggregate': int)
    requires opt.WellFormed()
    ensures safety.Safe? ==> IsLongestGap(Fires(opt), maxEmpty)
    ensures safety.Safe? ==> IsReportedWork(opt, maxWork)
    ensures safety.Unreachable? ==> Never(Fires(opt))
    ensures safety.Unsupported? ==> RefusedOutright(opt)
    ensures RefusedOutright(opt) ==> !safety.Safe?
    ensures safety.Unsupported? ==>
              || opt.byEaster != []
              || (!opt.freq.Yearly? && !opt.freq.Monthly? && exists s :: s in opt.byWeekday && s.n != 0)
              || ((opt.freq.Hourly? || opt.freq.Minutely? || opt.freq.Secondly?) &&
                  |opt.byMonth| + |opt.byMonthDay| + |opt.byYearDay| + |opt.byWeekNo| + |opt.byWeekday| > 0)
    ensures safety.Canceled? ==> exists i: nat :: canceled(i)
    ensures safety.Excessive? ==> MayBeExcessive(opt, series, aggregate)
    ensures series' <= series && aggregate' <= aggregate
    ensures safety.Safe? || safety.Unreachable? ==>
              aggregate - aggregate' == (if opt.freq.SubDaily() then ClockStates(opt)
                                         else if IsScanned(opt) then WholeScan(NormalizeDateDefaults(opt)) else 1)
  {
    hide WholeScan;
    hide Fires, ClockFires, PeriodFires, ClockStates, NeedsDefaultCycle, MatchesInPeriod, PeriodWork;
    hide IsLargestWork, IsReportedWork;
    SameDefaultNeed(opt);
    maxEmpty, maxWork, series', aggregate' := 0, 0, series, aggregate;
    if opt.byEaster != [] {
      return Unsupported, 0, 0, series, aggregate;
    }
    if HasMisplacedOrdinal(opt) {
      return Unsupported, 0, 0, series, aggregate;
    }
    if opt.Interval() > MAX_EXPANSION_WORK {
      return Excessive, 0, 0, series, aggregate;
    }
    var gap;
    safety, gap, series', aggregate' := ClockSelectorSafety(opt, series, aggregate, canceled);
    if !safety.Safe? {
      SubDailySignal(opt, gap);
      return;
    }
    if opt.freq.SubDaily() {
      SubDailySignal(opt, gap);
      if opt.HasDateSelectors() {
        safety := Unsupported;
      } else if opt.SetPosCanSelect(opt.TimesPerPeriod()) {
        maxEmpty, maxWork := gap, opt.TimesPerPeriod();
      } else {
        safety := Unreachable;
      }
      return;
    }
    var normal := NormalizeDateDefaults(opt);
    DailySignal(opt);
    if !opt.HasDateSelectors() && !NeedsDefaultCycle(normal) {
      var (granted, s, a) := ConsumeWork(series', aggregate');
      if !granted {
        safety := Excessive;
        return;
      }
      series', aggregate' := s, a;
      DefaultSignal(opt);
      if !normal.SetPosCanSelect(normal.TimesPerDate()) {
        safety := Unreachable;
        return;
      }
      maxWork := normal.TimesPerDate();
      return;
    }
    safety, maxEmpty, maxWork, aggregate' := DateSelectorSafety(normal, aggregate', canceled);
  }

  /** Normalising keeps the need for a scan; which work is reported depends on the path taken. */
  lemma SameDefaultNeed(opt: RuleOption)
    ensures NeedsDefaultCycle(NormalizeDateDefaults(opt)) == NeedsDefaultCycle(opt)
    ensures opt.freq.SubDaily() ==> IsReportedWork(opt, opt.TimesPerPeriod())
    ensures !opt.freq.SubDaily() && !opt.HasDateSelectors() && !NeedsDefaultCycle(opt) ==>
              IsReportedWork(opt, opt.TimesPerDate())
    ensures !opt.freq.SubDaily() && (opt.HasDateSelectors() || NeedsDefaultCycle(opt)) ==>
              forall w :: IsLargestWork(NormalizeDateDefaults(opt), w) ==> IsReportedWork(opt, w)
  {
    hide IsLargestWork;
  }

  lemma DailySignal(opt: RuleOption)
    requires !opt.freq.SubDaily() && Supported(opt)
    ensures Fires(opt) == PeriodFires(NormalizeDateDefaults(opt))
    ensures Supported(NormalizeDateDefaults(opt)) && !NormalizeDateDefaults(opt).freq.SubDaily()
    ensures ClockStates(opt) == 0
  {
  }

  /** For sub-daily rules the clock scan and BYSETPOS together decide the signal. */
  lemma SubDailySignal(opt: RuleOption, gap: nat)
    requires opt.freq.SubDaily()
    ensures opt.SetPosCanSelect(opt.TimesPerPeriod()) && IsLongestGap(ClockFires(opt), gap) ==> IsLongestGap(Fires(opt), gap)
    ensures !opt.SetPosCanSelect(opt.TimesPerPeriod()) || Never(ClockFires(opt)) ==> Never(Fires(opt))
  {
    hide ClockFires;
    if opt.SetPosCanSelect(opt.TimesPerPeriod()) {
      SameSignal(ClockFires(opt), Fires(opt), gap);
    }
  }
}
