/** The parsed recurrence rule, its selector lists and the counts derived from them. */
module RecurrenceRules {
  import Gregorian
  import opened Sequences

  const MAX_EXPANSION_WORK := 100000

  datatype Frequency = Yearly | Monthly | Weekly | Daily | Hourly | Minutely | Secondly {
    predicate SubDaily() { Hourly? || Minutely? || Secondly? }
  }

  /** `day` counts from Monday = 0; `n` is the ordinal, 0 for a plain weekday. */
  datatype WeekdaySelector = WeekdaySelector(day: int, n: int)

  /** `startDay` is the civil day of DTSTART; hour, minute and second are its clock. */
  datatype RuleOption = RuleOption(
    freq: Frequency, interval: int, weekStart: int, count: int,
    startDay: int, hour: nat, minute: nat, second: nat,
    bySetPos: seq<int>, byMonth: seq<int>, byMonthDay: seq<int>, byYearDay: seq<int>,
    byWeekNo: seq<int>, byHour: seq<int>, byMinute: seq<int>, bySecond: seq<int>,
    byEaster: seq<int>, byWeekday: seq<WeekdaySelector>)
  {
    /** What a clock reading and a weekday value guarantee by themselves. */
    predicate WellFormed() {
      hour < 24 && minute < 60 && second < 60 && 0 <= weekStart < 7
    }

    function Interval(): (i: nat)
      ensures 1 <= i && (interval >= 1 ==> i == interval) && (interval < 1 ==> i == 1)
    {
      if interval < 1 then 1 else interval
    }

    predicate HasDateSelectors() {
      |byMonth| + |byMonthDay| + |byYearDay| + |byWeekNo| + |byWeekday| + |byEaster| > 0
    }

    predicate HasOnlyWeekdaySelectors() {
      |byWeekday| != 0 && |byMonth| + |byMonthDay| + |byYearDay| + |byWeekNo| + |byEaster| == 0
    }

    function TimesPerDate(): (t: nat)
      ensures 1 <= t
    {
      OneIfEmpty(byHour) * OneIfEmpty(byMinute) * OneIfEmpty(bySecond)
    }

    function TimesPerPeriod(): (t: nat)
      ensures 1 <= t
    {
      match freq
      case Hourly => OneIfEmpty(byMinute) * OneIfEmpty(bySecond)
      case Minutely => OneIfEmpty(bySecond)
      case Secondly => 1
      case _ => TimesPerDate()
    }

    predicate SetPosCanSelect(candidates: int) {
      && candidates > 0
      && (bySetPos == [] ||
          exists p :: p in bySetPos && (0 < p <= candidates || (p < 0 && -p <= candidates)))
    }
  }

  /** Some BYSETPOS position falls inside the candidates. */
  method BySetPosCanSelect(opt: RuleOption, candidates: int) returns (r: bool)
    ensures r == opt.SetPosCanSelect(candidates)
  {
    if candidates <= 0 {
      return false;
    }
    if opt.bySetPos == [] {
      return true;
    }
    for i := 0 to |opt.bySetPos|
      invariant forall j :: 0 <= j < i ==> !(0 < opt.bySetPos[j] <= candidates || (opt.bySetPos[j] < 0 && -opt.bySetPos[j] <= candidates))
    {
      var position := opt.bySetPos[i];
      assert position in opt.bySetPos;
      if (position > 0 && position <= candidates) || (position < 0 && -position <= candidates) {
        return true;
      }
    }
    r := false;
  }

  function OneIfEmpty(values: seq<int>): (n: nat)
    ensures 1 <= n
  {
    if values == [] then 1 else |values|
  }

  predicate Ascending(values: seq<int>) {
    forall i, j :: 0 <= i < j < |values| ==> values[i] < values[j]
  }

  /** `sort.SearchInts` narrowed to `values[lo..hi]`. */
  function SearchInts(values: seq<int>, target: int, lo: nat, hi: nat): (i: nat)
    requires lo <= hi <= |values|
    ensures lo <= i <= hi
    ensures Ascending(values) ==> forall k :: lo <= k < i ==> values[k] < target
    ensures Ascending(values) ==> forall k :: i <= k < hi ==> target <= values[k]
    decreases hi - lo
  {
    if lo == hi then lo
    else
      var mid := (lo + hi) / 2;
      if values[mid] < target then SearchInts(values, target, mid + 1, hi) else SearchInts(values, target, lo, mid)
  }

  /** The binary search decides membership on the ascending lists that normalisation produces. */
  predicate Contains(values: seq<int>, target: int)
    ensures Ascending(values) ==> Contains(values, target) == (target in values)
  {
    var index := SearchInts(values, target, 0, |values|);
    index < |values| && values[index] == target
  }

  /** Every integer selector list is ascending without repeats. */
  predicate Normalized(opt: RuleOption) {
    && Ascending(opt.bySetPos) && Ascending(opt.byMonth) && Ascending(opt.byMonthDay)
    && Ascending(opt.byYearDay) && Ascending(opt.byWeekNo) && Ascending(opt.byHour)
    && Ascending(opt.byMinute) && Ascending(opt.bySecond) && Ascending(opt.byEaster)
  }

  ghost predicate SameMembers<T(!new)>(a: seq<T>, b: seq<T>) {
    forall x :: x in a <==> x in b
  }

  /** Drops repeats, keeping first occurrences in order. */
  method Deduplicate<T(==, !new)>(values: seq<T>) returns (unique: seq<T>)
    ensures Distinct(unique) && SameMembers(unique, values)
  {
    var seen: set<T> := {};
    unique := [];
    for i := 0 to |values|
      invariant Distinct(unique)
      invariant forall x :: x in unique <==> x in values[..i]
      invariant forall x :: x in seen <==> x in unique
    {
      assert values[..i + 1] == values[..i] + [values[i]];
      if values[i] !in seen {
        seen := seen + {values[i]};
        unique := unique + [values[i]];
      }
    }
    assert values[..|values|] == values;
  }

  lemma InsertedAscends(before: seq<int>, x: int, after: seq<int>)
    requires Ascending(before) && Ascending(after)
    requires forall i :: 0 <= i < |before| ==> before[i] < x
    requires forall i :: 0 <= i < |after| ==> x < after[i]
    ensures Ascending(before + [x] + after)
  {
  }

  lemma Inserted(sorted: seq<int>, x: int, at: nat)
    requires Ascending(sorted) && x !in sorted && at == SearchInts(sorted, x, 0, |sorted|)
    ensures Ascending(sorted[..at] + [x] + sorted[at..])
    ensures forall y :: y in sorted[..at] + [x] + sorted[at..] <==> y in sorted || y == x
  {
    hide SearchInts;
    var before, after := sorted[..at], sorted[at..];
    assert forall k :: at <= k < |sorted| ==> sorted[k] in sorted;
    InsertedAscends(before, x, after);
    assert sorted == before + after;
  }

  /** `sort.Ints` on a list without repeats, by insertion. */
  method SortDistinct(values: seq<int>) returns (sorted: seq<int>)
    requires Distinct(values)
    ensures Ascending(sorted) && SameMembers(sorted, values) && |sorted| == |values|
  {
    sorted := [];
    for i := 0 to |values|
      invariant Ascending(sorted) && |sorted| == i
      invariant forall x :: x in sorted <==> x in values[..i]
    {
      assert values[..i + 1] == values[..i] + [values[i]];
      var at := SearchInts(sorted, values[i], 0, |sorted|);
      assert values[i] !in sorted;
      Inserted(sorted, values[i], at);
      sorted := sorted[..at] + [values[i]] + sorted[at..];
    }
    assert values[..|values|] == values;
  }

  method NormalizeList(values: seq<int>) returns (unique: seq<int>)
    ensures Ascending(unique) && SameMembers(unique, values)
  {
    unique := Deduplicate(values);
    unique := SortDistinct(unique);
  }

  /** The rule selects the same values in every list. */
  ghost predicate SameSelection(a: RuleOption, b: RuleOption) {
    && SameMembers(a.bySetPos, b.bySetPos) && SameMembers(a.byMonth, b.byMonth)
    && SameMembers(a.byMonthDay, b.byMonthDay) && SameMembers(a.byYearDay, b.byYearDay)
    && SameMembers(a.byWeekNo, b.byWeekNo) && SameMembers(a.byHour, b.byHour)
    && SameMembers(a.byMinute, b.byMinute) && SameMembers(a.bySecond, b.bySecond)
    && SameMembers(a.byEaster, b.byEaster) && SameMembers(a.byWeekday, b.byWeekday)
  }

  method NormalizeSelectorLists(opt: RuleOption) returns (normal: RuleOption, fits: bool)
    ensures Normalized(normal) && Distinct(normal.byWeekday) && SameSelection(normal, opt)
    ensures normal == opt.(bySetPos := normal.bySetPos, byMonth := normal.byMonth, byMonthDay := normal.byMonthDay,
                           byYearDay := normal.byYearDay, byWeekNo := normal.byWeekNo, byHour := normal.byHour,
                           byMinute := normal.byMinute, bySecond := normal.bySecond, byEaster := normal.byEaster,
                           byWeekday := normal.byWeekday)
    ensures fits == (normal.TimesPerDate() <= MAX_EXPANSION_WORK)
  {
    var setPos := NormalizeList(opt.bySetPos);
    var months := NormalizeList(opt.byMonth);
    var monthDays := NormalizeList(opt.byMonthDay);
    var yearDays := NormalizeList(opt.byYearDay);
    var weekNos := NormalizeList(opt.byWeekNo);
    var hours := NormalizeList(opt.byHour);
    var minutes := NormalizeList(opt.byMinute);
    var seconds := NormalizeList(opt.bySecond);
    var easter := NormalizeList(opt.byEaster);
    var weekdays := Deduplicate(opt.byWeekday);
    normal := opt.(bySetPos := setPos, byMonth := months, byMonthDay := monthDays, byYearDay := yearDays,
                   byWeekNo := weekNos, byHour := hours, byMinute := minutes, bySecond := seconds,
                   byEaster := easter, byWeekday := weekdays);
    fits := normal.TimesPerDate() <= MAX_EXPANSION_WORK;
  }

  /** The DTSTART date stands in for missing date selectors. */
  function NormalizeDateDefaults(opt: RuleOption): (normal: RuleOption)
    ensures normal.Interval() == opt.Interval() && normal.TimesPerDate() == opt.TimesPerDate()
    ensures opt.WellFormed() ==> normal.WellFormed()
    ensures opt.byWeekNo != [] || opt.byYearDay != [] || opt.byMonthDay != [] || opt.byWeekday != [] || opt.byEaster != [] ==>
              normal == opt
  {
    if |opt.byWeekNo| + |opt.byYearDay| + |opt.byMonthDay| + |opt.byWeekday| + |opt.byEaster| != 0 then opt
    else match opt.freq
      case Yearly =>
        opt.(byMonth := if opt.byMonth == [] then [Gregorian.Month(opt.startDay)] else opt.byMonth,
             byMonthDay := [Gregorian.DayOfMonth(opt.startDay)])
      case Monthly =>
        opt.(byMonthDay := [Gregorian.DayOfMonth(opt.startDay)])
      case Weekly =>
        opt.(byWeekday := [WeekdaySelector(Gregorian.Weekday(opt.startDay), 0)])
      case _ => opt
  }

  /** Multiplication that reports every product above the limit as limit + 1. */
  function SaturatingMultiply(a: int, b: int): (r: int)
    ensures a > 0 && b > 0 ==> r == if a * b <= MAX_EXPANSION_WORK then a * b else MAX_EXPANSION_WORK + 1
    ensures a <= 0 || b <= 0 ==> r == 0
  {
    if a <= 0 || b <= 0 then 0
    else if a > MAX_EXPANSION_WORK / b then
      assert a >= MAX_EXPANSION_WORK / b + 1;
      assert a * b >= (MAX_EXPANSION_WORK / b + 1) * b;
      MAX_EXPANSION_WORK + 1
    else
      assert a * b <= (MAX_EXPANSION_WORK / b) * b;
      a * b
  }

  datatype Verdict = Safe | Canceled | Unsupported | Unreachable | Excessive
}
