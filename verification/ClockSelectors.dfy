/**
 The clock-selector scan of sub-daily rules. The scan walks one cycle of a
 possibly reduced modulus; the theorems say its answer holds for every step of
 the infinite orbit of full times of day.
 */
module ClockSelectors {
  import opened Arithmetic
  import opened CyclicGap
  import opened RecurrenceRules

  predicate Allows(values: seq<int>, target: int) {
    values == [] || Contains(values, target)
  }

  /** Steps of the rule's unit in a day. */
  function UnitsPerDay(freq: Frequency): (u: nat)
    ensures 1 <= u
  {
    match freq
    case Hourly => 24
    case Minutely => 24 * 60
    case _ => 24 * 60 * 60
  }

  /** DTSTART's time of day in the rule's unit. */
  function StartOfDay(opt: RuleOption): nat {
    match opt.freq
    case Hourly => opt.hour
    case Minutely => opt.hour * 60 + opt.minute
    case _ => opt.hour * 3600 + opt.minute * 60 + opt.second
  }

  function TimeOfDay(opt: RuleOption, n: nat): (t: nat)
    ensures t < UnitsPerDay(opt.freq)
  {
    (StartOfDay(opt) + opt.Interval() * n) % UnitsPerDay(opt.freq)
  }

  /** Whether a full time of day, in the rule's unit, passes the clock selectors that limit that unit. */
  predicate TimeMatches(opt: RuleOption, time: nat) {
    match opt.freq
    case Hourly => Allows(opt.byHour, time)
    case Minutely => Allows(opt.byHour, time / 60) && Allows(opt.byMinute, time % 60)
    case Secondly =>
      Allows(opt.byHour, time / 3600) && Allows(opt.byMinute, (time / 60) % 60) && Allows(opt.bySecond, time % 60)
    case _ => true
  }

  /** Specification: does step `n` of the rule land on an allowed time of day? */
  function ClockFires(opt: RuleOption): nat -> bool {
    (n: nat) => TimeMatches(opt, TimeOfDay(opt, n))
  }

  /** The scan's modulus; 0 when no selector needs a scan. */
  function ClockCycle(opt: RuleOption): (c: nat) {
    match opt.freq
    case Hourly => if opt.byHour == [] then 0 else 24
    case Minutely =>
      if opt.byHour == [] && opt.byMinute == [] then 0 else if opt.byHour == [] then 60 else 24 * 60
    case Secondly =>
      if opt.byHour == [] && opt.byMinute == [] && opt.bySecond == [] then 0
      else if opt.byHour != [] then 24 * 60 * 60
      else if opt.byMinute != [] then 60 * 60
      else 60
    case _ => 0
  }

  function ScanStart(opt: RuleOption): nat {
    match opt.freq
    case Hourly => opt.hour
    case Minutely => if opt.byHour == [] then opt.minute else opt.hour * 60 + opt.minute
    case _ =>
      if opt.byHour != [] then opt.hour * 3600 + opt.minute * 60 + opt.second
      else if opt.byMinute != [] then opt.minute * 60 + opt.second
      else opt.second
  }

  /** The scan's own test of a value below its modulus. */
  predicate ScanMatches(opt: RuleOption, value: nat) {
    var cycle := ClockCycle(opt);
    match opt.freq
    case Hourly => Contains(opt.byHour, value)
    case Minutely =>
      var hour := if cycle == 60 then opt.hour else value / 60;
      Allows(opt.byHour, hour) && Allows(opt.byMinute, value % 60)
    case _ =>
      var hour := if cycle < 24 * 60 * 60 then opt.hour else value / 3600;
      var minute := if cycle == 60 then opt.minute else (value / 60) % 60;
      Allows(opt.byHour, hour) && Allows(opt.byMinute, minute) && Allows(opt.bySecond, value % 60)
  }

  /** Number of table entries the scan fills. */
  function ClockStates(opt: RuleOption): nat {
    var cycle := ClockCycle(opt);
    if cycle == 0 then 0 else CycleLength(opt.Interval(), cycle)
  }

  /** One unit of both budgets, or none when either is exhausted. */
  function ConsumeWork(series: int, aggregate: int): (r: (bool, int, int)) {
    if series <= 0 || aggregate <= 0 then (false, series, aggregate) else (true, series - 1, aggregate - 1)
  }

  /** The value scanned at step `i`. */
  function ScanValue(opt: RuleOption, i: nat): nat
    requires ClockCycle(opt) != 0
  {
    (ScanStart(opt) + opt.Interval() * i) % ClockCycle(opt)
  }

  method FillClockTable(opt: RuleOption, series: int, aggregate: int, canceled: nat -> bool)
    returns (safety: Verdict, states: seq<bool>, series': int, aggregate': int)
    requires opt.WellFormed() && ClockCycle(opt) != 0
    ensures safety.Safe? || safety.Canceled? || safety.Excessive?
    ensures safety.Safe? ==> |states| == ClockStates(opt)
    ensures safety.Safe? ==> forall j :: 0 <= j < |states| ==> states[j] == ScanMatches(opt, ScanValue(opt, j))
    ensures safety.Canceled? ==> exists i: nat :: canceled(i)
    ensures safety.Safe? ==> ClockStates(opt) <= series && ClockStates(opt) <= aggregate
    ensures safety.Excessive? ==> series < ClockStates(opt) || aggregate < ClockStates(opt)
    ensures series - series' == aggregate - aggregate' && series' <= series
    ensures safety.Safe? ==> series - series' == ClockStates(opt)
  {
    hide ScanMatches, ScanStart, Gcd;
    series', aggregate' := series, aggregate;
    var cycle := ClockCycle(opt);
    var gcd := GreatestCommonDivisor(opt.Interval(), cycle);
    CycleBound(opt.Interval(), cycle);
    var count := cycle / gcd;
    assert count == ClockStates(opt);
    var step := opt.Interval() % cycle;
    var value := ScanStart(opt);
    ScanStartInRange(opt);
    states := [];
    for i := 0 to count
      invariant |states| == i
      invariant series' == series - i && aggregate' == aggregate - i
      invariant i == 0 || (series' >= 0 && aggregate' >= 0)
      invariant value == ScanValue(opt, i)
      invariant forall j :: 0 <= j < i ==> states[j] == ScanMatches(opt, ScanValue(opt, j))
    {
      if i % 256 == 0 && canceled(i) {
        return Canceled, states, series', aggregate';
      }
      var (granted, s, a) := ConsumeWork(series', aggregate');
      if !granted {
        return Excessive, states, series', aggregate';
      }
      series', aggregate' := s, a;
      states := states + [ScanMatches(opt, value)];
      StepValue(ScanStart(opt), opt.Interval(), cycle, i);
      value := (value + step) % cycle;
    }
    safety := Safe;
  }

  /** Exact for all time: the budgets or a cancellation are the only other ways out. */
  method ClockSelectorSafety(opt: RuleOption, series: int, aggregate: int, canceled: nat -> bool)
    returns (safety: Verdict, maxEmpty: nat, series': int, aggregate': int)
    requires opt.WellFormed()
    ensures !safety.Unsupported?
    ensures safety.Safe? ==> IsLongestGap(ClockFires(opt), maxEmpty)
    ensures safety.Unreachable? ==> Never(ClockFires(opt))
    ensures safety.Canceled? ==> exists i: nat :: canceled(i)
    ensures safety.Excessive? ==> series < ClockStates(opt) || aggregate < ClockStates(opt)
    ensures series - series' == aggregate - aggregate' && series' <= series
    ensures safety.Safe? || safety.Unreachable? ==> series - series' == ClockStates(opt)
    ensures !opt.freq.SubDaily() ==> safety.Safe? && maxEmpty == 0
  {
    if ClockCycle(opt) == 0 {
      AlwaysFires(opt);
      return Safe, 0, series, aggregate;
    }
    var states;
    safety, states, series', aggregate' := FillClockTable(opt, series, aggregate, canceled);
    maxEmpty := 0;
    if safety.Safe? {
      ScanTabulates(opt, states);
      var gap, reachable := MaximumCyclicEmptyPeriods(states);
      ScanIsExact(ClockFires(opt), states, gap);
      if reachable {
        maxEmpty := gap;
      } else {
        safety := Unreachable;
      }
    }
  }

  lemma AlwaysFires(opt: RuleOption)
    requires ClockCycle(opt) == 0
    ensures IsLongestGap(ClockFires(opt), 0)
  {
    var fires := ClockFires(opt);
    forall n: nat ensures HitWithin(fires, n, 0) {
      assert fires(n);
    }
    assert EmptyRun(fires, 0, 0);
  }

  lemma ScanStartInRange(opt: RuleOption)
    requires opt.WellFormed() && ClockCycle(opt) != 0
    ensures ScanValue(opt, 0) == ScanStart(opt)
  {
  }

  /** One incremental step of the scan equals the closed form. */
  lemma StepValue(start: nat, interval: nat, cycle: nat, i: nat)
    requires 0 < cycle
    ensures ((start + interval * i) % cycle + interval % cycle) % cycle == (start + interval * (i + 1)) % cycle
  {
    var a, b := start + interval * i, interval;
    Divided(a, cycle);
    Divided(b, cycle);
    assert cycle * (a / cycle + b / cycle) == cycle * (a / cycle) + cycle * (b / cycle);
    WholeTurns(a % cycle + b % cycle, cycle, a / cycle + b / cycle);
    assert interval * (i + 1) == interval * i + interval;
  }

  /** The reduced modulus keeps everything the selectors look at. */
  lemma ReducedCycleAgrees(opt: RuleOption, time: nat)
    requires opt.WellFormed() && ClockCycle(opt) != 0 && time < UnitsPerDay(opt.freq)
    ensures TimeMatches(opt, time) == ScanMatches(opt, time % ClockCycle(opt))
  {
    hide Contains;
    if opt.freq.Secondly? {
      ReducedSeconds(opt, time);
    } else if opt.freq.Minutely? {
      ReducedMinutes(opt, time);
    } else {
      Quotient(time, 24, 0);
    }
  }

  lemma ReducedMinutes(opt: RuleOption, time: nat)
    requires opt.freq.Minutely? && ClockCycle(opt) != 0 && time < 24 * 60
    ensures TimeMatches(opt, time) == ScanMatches(opt, time % ClockCycle(opt))
  {
    hide Contains;
    Quotient(time, 24 * 60, 0);
    Quotient(time % 60, 60, 0);
  }

  lemma ReducedSeconds(opt: RuleOption, time: nat)
    requires opt.freq.Secondly? && ClockCycle(opt) != 0 && time < 24 * 60 * 60
    ensures TimeMatches(opt, time) == ScanMatches(opt, time % ClockCycle(opt))
  {
    hide Contains;
    SplitSeconds(time);
    Quotient(time, 24 * 60 * 60, 0);
    Quotient(time % 60, 60, 0);
    var minute := (time % 3600) / 60;
    Quotient(minute, 60, 0);
  }

  lemma SplitSeconds(time: nat)
    ensures (time / 60) % 60 == (time % 3600) / 60
    ensures time % 60 == (time % 3600) % 60
  {
    var hour, rest := time / 3600, time % 3600;
    Divided(time, 3600);
    Divided(rest, 60);
    Remainder(60, 60 * hour + rest / 60, rest % 60);
    Remainder(60, hour, rest / 60);
  }

  /** The full time of day and the scanned value agree modulo the scan's cycle. */
  lemma SameOrbit(opt: RuleOption, n: nat)
    requires opt.WellFormed() && ClockCycle(opt) != 0
    ensures TimeOfDay(opt, n) % ClockCycle(opt) == ScanValue(opt, n)
  {
    var cycle, day := ClockCycle(opt), UnitsPerDay(opt.freq);
    var scan, full := ScanStart(opt) + opt.Interval() * n, StartOfDay(opt) + opt.Interval() * n;
    var turns, carried := CycleDividesDay(opt);
    FoldDay(full, scan, day, cycle, turns, carried);
  }

  lemma CycleDividesDay(opt: RuleOption) returns (turns: nat, carried: nat)
    requires opt.WellFormed() && ClockCycle(opt) != 0
    ensures UnitsPerDay(opt.freq) == ClockCycle(opt) * turns
    ensures StartOfDay(opt) == ScanStart(opt) + ClockCycle(opt) * carried
  {
    var cycle := ClockCycle(opt);
    turns := if cycle == 60 then UnitsPerDay(opt.freq) / 60 else if cycle == 3600 then 24 else 1;
    carried := if cycle == 60 && opt.freq.Minutely? then opt.hour
               else if cycle == 60 then opt.hour * 60 + opt.minute
               else if cycle == 3600 then opt.hour else 0;
  }

  /** Folding by the day first does not change the fold by a divisor of the day. */
  lemma FoldDay(full: nat, scan: nat, day: nat, cycle: nat, turns: nat, carried: nat)
    requires 0 < cycle && 0 < day == cycle * turns && full == scan + cycle * carried
    ensures (full % day) % cycle == scan % cycle
  {
    Divided(full, day);
    assert day * (full / day) == cycle * (turns * (full / day)) by { Distribute(cycle, turns, full / day, 0); }
    WholeTurns(full % day, cycle, turns * (full / day));
    WholeTurns(scan, cycle, carried);
  }

  /** The table of one cycle tabulates the infinite orbit. */
  lemma ScanTabulates(opt: RuleOption, states: seq<bool>)
    requires opt.WellFormed() && ClockCycle(opt) != 0 && |states| == ClockStates(opt)
    requires forall j :: 0 <= j < |states| ==> states[j] == ScanMatches(opt, ScanValue(opt, j))
    ensures Tabulates(ClockFires(opt), states)
  {
    forall n: nat ensures ClockFires(opt)(n) == states[n % |states|] {
      var k := ResiduePhase(opt.Interval(), ClockCycle(opt), n);
      var r := n % |states|;
      SameOrbit(opt, n);
      ReducedCycleAgrees(opt, TimeOfDay(opt, n));
      WholeTurns(ScanStart(opt) + opt.Interval() * r, ClockCycle(opt), k);
      assert ScanValue(opt, n) == ScanValue(opt, r);
    }
  }
}
