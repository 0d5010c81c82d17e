/**
 The free-slot finder: busy intervals are merged, complemented within the search
 range, clipped to working hours by a walk over civil days, and filled greedily.
 Every stage is specified by the set of instants it covers.
 */
module FreeSlots {

  const DAY_MINUTES := 24 * 60

  /** Half-open: `[start, end)`. */
  datatype Interval = Interval(start: int, end: int) {
    predicate Holds(t: int) { start <= t < end }
    predicate WellFormed() { start <= end }
    predicate NonEmpty() { start < end }
  }

  ghost predicate Covered(t: int, ivs: seq<Interval>) {
    exists i :: 0 <= i < |ivs| && ivs[i].Holds(t)
  }

  /** Ascending with a real gap between neighbours. */
  ghost predicate Separated(ivs: seq<Interval>) {
    forall i, j :: 0 <= i < j < |ivs| ==> ivs[i].end < ivs[j].start && ivs[i].start <= ivs[j].start
  }

  ghost predicate AllNonEmpty(ivs: seq<Interval>) {
    forall i :: 0 <= i < |ivs| ==> ivs[i].NonEmpty()
  }

  ghost predicate AllWellFormed(ivs: seq<Interval>) {
    forall i :: 0 <= i < |ivs| ==> ivs[i].WellFormed()
  }

  lemma CoveredSnoc(t: int, ivs: seq<Interval>, last: Interval)
    ensures Covered(t, ivs + [last]) <==> Covered(t, ivs) || last.Holds(t)
  {
    var all := ivs + [last];
    if Covered(t, ivs) {
      var i :| 0 <= i < |ivs| && ivs[i].Holds(t);
      assert all[i].Holds(t);
    }
    assert all[|ivs|] == last;
  }

  // --- Merging ---------------------------------------------------------------------------

  predicate Before(a: Interval, b: Interval) {
    a.start < b.start || (a.start == b.start && a.end <= b.end)
  }

  ghost predicate Sorted(ivs: seq<Interval>) {
    forall i, j :: 0 <= i < j < |ivs| ==> Before(ivs[i], ivs[j])
  }

  lemma Inserted(ivs: seq<Interval>, x: Interval, at: nat)
    requires Sorted(ivs) && at <= |ivs|
    requires forall i :: 0 <= i < at ==> Before(ivs[i], x)
    requires at < |ivs| ==> Before(x, ivs[at])
    ensures Sorted(ivs[..at] + [x] + ivs[at..])
  {
    var all := ivs[..at] + [x] + ivs[at..];
    forall i, j | 0 <= i < j < |all| ensures Before(all[i], all[j]) {
      assert at < j ==> all[j] == ivs[j - 1];
      assert at < i ==> all[i] == ivs[i - 1];
    }
  }

  /** The library sort by start, then end. */
  method SortIntervals(ivs: seq<Interval>) returns (sorted: seq<Interval>)
    ensures Sorted(sorted) && multiset(sorted) == multiset(ivs)
  {
    sorted := [];
    for i := 0 to |ivs|
      invariant Sorted(sorted) && multiset(sorted) == multiset(ivs[..i])
    {
      var at := 0;
      while at < |sorted| && Before(sorted[at], ivs[i])
        invariant at <= |sorted|
        invariant forall j :: 0 <= j < at ==> Before(sorted[j], ivs[i])
      {
        at := at + 1;
      }
      Inserted(sorted, ivs[i], at);
      assert sorted == sorted[..at] + sorted[at..];
      assert ivs[..i + 1] == ivs[..i] + [ivs[i]];
      sorted := sorted[..at] + [ivs[i]] + sorted[at..];
    }
    assert ivs[..|ivs|] == ivs;
  }

  lemma SamePoints(a: seq<Interval>, b: seq<Interval>, t: int)
    requires multiset(a) == multiset(b)
    ensures Covered(t, a) ==> Covered(t, b)
  {
    if Covered(t, a) {
      var i :| 0 <= i < |a| && a[i].Holds(t);
      assert a[i] in multiset(a);
      assert a[i] in b;
    }
  }

  /** What one merge step keeps: the same instants, separated, with the frontier interval last. */
  ghost predicate Merged(done: seq<Interval>, out: seq<Interval>) {
    && |out| > 0 && Separated(out)
    && (forall t :: Covered(t, out) <==> Covered(t, done))
    && (AllWellFormed(done) ==> AllWellFormed(out))
    && (AllNonEmpty(done) ==> AllNonEmpty(out))
    && (exists i :: 0 <= i < |done| && done[i].start == out[|out| - 1].start)
  }

  lemma MergeExtend(done: seq<Interval>, out: seq<Interval>, cur: Interval, last: Interval)
    requires Merged(done, out) && last == out[|out| - 1]
    requires last.start <= cur.start <= last.end
    ensures Merged(done + [cur], out[|out| - 1 := Interval(last.start, if cur.end > last.end then cur.end else last.end)])
  {
    var wide := Interval(last.start, if cur.end > last.end then cur.end else last.end);
    var n := |out| - 1;
    var out' := out[n := wide];
    forall t ensures Covered(t, out') <==> Covered(t, done + [cur]) {
      CoveredSnoc(t, done, cur);
      CoveredSnoc(t, out[..n], last);
      CoveredSnoc(t, out[..n], wide);
      assert out == out[..n] + [last] && out' == out[..n] + [wide];
    }
    var i :| 0 <= i < |done| && done[i].start == last.start;
    assert (done + [cur])[i].start == out'[n].start;
    assert forall i :: 0 <= i < |done| ==> (done + [cur])[i] == done[i];
  }

  lemma MergeAppend(done: seq<Interval>, out: seq<Interval>, cur: Interval)
    requires Merged(done, out)
    requires out[|out| - 1].end < cur.start && out[|out| - 1].start <= cur.start
    ensures Merged(done + [cur], out + [cur])
  {
    forall t ensures Covered(t, out + [cur]) <==> Covered(t, done + [cur]) {
      CoveredSnoc(t, done, cur);
      CoveredSnoc(t, out, cur);
    }
    assert (done + [cur])[|done|] == cur;
    assert forall i :: 0 <= i < |done| ==> (done + [cur])[i] == done[i];
  }

  /** The merged list covers the same instants and its neighbours never touch. */
  method MergeIntervals(ivs: seq<Interval>) returns (out: seq<Interval>)
    ensures forall t :: Covered(t, out) <==> Covered(t, ivs)
    ensures Separated(out)
    ensures AllWellFormed(ivs) ==> AllWellFormed(out)
    ensures AllNonEmpty(ivs) ==> AllNonEmpty(out)
  {
    hide Merged;
    if |ivs| == 0 {
      return [];
    }
    var sorted := SortIntervals(ivs);
    SortedFacts(ivs, sorted);
    out := [sorted[0]];
    MergeStart(sorted[0]);
    assert sorted[..1] == [sorted[0]];
    for i := 1 to |sorted|
      invariant Merged(sorted[..i], out)
    {
      var cur := sorted[i];
      MergedFacts(sorted, i, out);
      var last := out[|out| - 1];
      assert sorted[..i + 1] == sorted[..i] + [cur];
      if cur.start <= last.end {
        MergeExtend(sorted[..i], out, cur, last);
        if cur.end > last.end {
          out := out[|out| - 1 := Interval(last.start, cur.end)];
        } else {
          assert out[|out| - 1 := last] == out;
        }
      } else {
        MergeAppend(sorted[..i], out, cur);
        out := out + [cur];
      }
    }
    assert sorted[..|sorted|] == sorted;
    MergedFacts(sorted, |sorted|, out);
  }

  lemma MergeStart(first: Interval)
    ensures Merged([first], [first])
  {
    assert [first][0].start == first.start;
  }

  lemma MergedFacts(sorted: seq<Interval>, i: nat, out: seq<Interval>)
    requires Sorted(sorted) && i <= |sorted| && Merged(sorted[..i], out)
    ensures |out| > 0 && Separated(out)
    ensures forall t :: Covered(t, out) <==> Covered(t, sorted[..i])
    ensures AllWellFormed(sorted[..i]) ==> AllWellFormed(out)
    ensures AllNonEmpty(sorted[..i]) ==> AllNonEmpty(out)
    ensures i < |sorted| ==> out[|out| - 1].start <= sorted[i].start
  {
    var k :| 0 <= k < i && sorted[..i][k].start == out[|out| - 1].start;
    assert i < |sorted| ==> Before(sorted[k], sorted[i]);
  }

  lemma SortedFacts(ivs: seq<Interval>, sorted: seq<Interval>)
    requires multiset(sorted) == multiset(ivs)
    ensures |sorted| == |ivs|
    ensures forall t :: Covered(t, sorted) <==> Covered(t, ivs)
    ensures AllWellFormed(ivs) ==> AllWellFormed(sorted)
    ensures AllNonEmpty(ivs) ==> AllNonEmpty(sorted)
  {
    assert |multiset(sorted)| == |multiset(ivs)|;
    forall t ensures Covered(t, sorted) <==> Covered(t, ivs) {
      SamePoints(sorted, ivs, t);
      SamePoints(ivs, sorted, t);
    }
    forall i | 0 <= i < |sorted| ensures sorted[i] in ivs {
      assert sorted[i] in multiset(sorted);
      assert sorted[i] in multiset(ivs);
    }
  }

  // --- Complement within the range ---------------------------------------------------------

  /** Up to `cursor` the free list is the complement of the busy list, and `busy[..i]` is spent. */
  ghost predicate Complemented(range: Interval, busy: seq<Interval>, i: nat, cursor: int, free: seq<Interval>)
    requires i <= |busy|
  {
    && range.start <= cursor <= range.end
    && (forall t :: range.start <= t < cursor ==> (Covered(t, free) <==> !Covered(t, busy)))
    && (forall t :: cursor <= t < range.end ==> !Covered(t, busy[..i]))
    && (forall t :: cursor <= t && Covered(t, free) ==> t < range.end && !Covered(t, busy))
    && (forall k :: 0 <= k < |free| ==> range.start <= free[k].start < free[k].end)
    && (AllWellFormed(busy) ==> Disjoint(free, cursor))
  }

  /** Ascending without overlap, up to `limit`. */
  ghost predicate Disjoint(ivs: seq<Interval>, limit: int) {
    && (forall k :: 0 <= k < |ivs| ==> ivs[k].end <= limit)
    && (forall j, k :: 0 <= j < k < |ivs| ==> ivs[j].end <= ivs[k].start)
  }

  lemma UpcomingBusy(busy: seq<Interval>, i: nat, t: int)
    requires Separated(busy) && i <= |busy|
    requires i < |busy| ==> t < busy[i].start
    ensures Covered(t, busy) <==> Covered(t, busy[..i])
  {
    if Covered(t, busy) {
      var k :| 0 <= k < |busy| && busy[k].Holds(t);
      assert k < i ==> busy[..i][k].Holds(t);
    }
    if Covered(t, busy[..i]) {
      var k :| 0 <= k < i && busy[..i][k].Holds(t);
      assert busy[k].Holds(t);
    }
  }

  /** Advancing past the gap before a busy interval, and past the interval itself. */
  lemma ComplementStep(range: Interval, busy: seq<Interval>, i: nat, cursor: int, free: seq<Interval>, bs: int, be: int)
    requires i < |busy| && Separated(busy)
    requires Complemented(range, busy, i, cursor, free)
    requires busy[i].end > range.start && busy[i].start < range.end
    requires bs == (if busy[i].start < range.start then range.start else busy[i].start)
    requires be == (if busy[i].end > range.end then range.end else busy[i].end)
    ensures Complemented(range, busy, i + 1, if be > cursor then be else cursor,
                         if bs > cursor then free + [Interval(cursor, bs)] else free)
  {
    var free' := if bs > cursor then free + [Interval(cursor, bs)] else free;
    var cursor' := if be > cursor then be else cursor;
    var spent := busy[..i + 1];
    assert spent == busy[..i] + [busy[i]];
    forall t | range.start <= t < cursor' ensures Covered(t, free') <==> !Covered(t, busy) {
      if bs > cursor { CoveredSnoc(t, free, Interval(cursor, bs)); }
      if cursor <= t {
        if t < bs {
          UpcomingBusy(busy, i, t);
        } else {
          assert busy[i].Holds(t);
        }
      }
    }
    forall t | cursor' <= t && Covered(t, free') ensures t < range.end && !Covered(t, busy) {
      if bs > cursor { CoveredSnoc(t, free, Interval(cursor, bs)); }
      if t < bs { UpcomingBusy(busy, i, t); }
    }
    assert busy[i].WellFormed() ==> bs <= cursor' || be <= cursor;
    forall t | cursor' <= t < range.end ensures !Covered(t, spent) {
      CoveredSnoc(t, busy[..i], busy[i]);
    }
  }

  lemma SkipBusy(range: Interval, busy: seq<Interval>, i: nat, cursor: int, free: seq<Interval>)
    requires i < |busy| && Complemented(range, busy, i, cursor, free) && busy[i].end <= range.start
    ensures Complemented(range, busy, i + 1, cursor, free)
  {
    var spent := busy[..i + 1];
    assert spent == busy[..i] + [busy[i]];
    forall t | cursor <= t < range.end ensures !Covered(t, spent) {
      CoveredSnoc(t, busy[..i], busy[i]);
    }
  }

  lemma ComplementEnd(range: Interval, busy: seq<Interval>, i: nat, cursor: int, free: seq<Interval>, t: int)
    requires i <= |busy| && Separated(busy) && Complemented(range, busy, i, cursor, free)
    requires i < |busy| ==> busy[i].start >= range.end
    ensures var out := if cursor < range.end then free + [Interval(cursor, range.end)] else free;
            Covered(t, out) <==> range.Holds(t) && !Covered(t, busy)
  {
    if cursor < range.end { CoveredSnoc(t, free, Interval(cursor, range.end)); }
    if cursor <= t < range.end { UpcomingBusy(busy, i, t); }
    assert t < range.start ==> !Covered(t, free);
  }

  /** Free time is exactly the range minus the busy instants. */
  method InvertBusy(range: Interval, busy: seq<Interval>) returns (free: seq<Interval>)
    requires range.NonEmpty() && Separated(busy)
    ensures forall t :: Covered(t, free) <==> range.Holds(t) && !Covered(t, busy)
    ensures AllNonEmpty(free)
    ensures AllWellFormed(busy) ==> Disjoint(free, range.end)
  {
    hide Complemented;
    free := [];
    var cursor := range.start;
    InvertStart(range, busy);
    var i := 0;
    while i < |busy|
      invariant 0 <= i <= |busy|
      invariant Complemented(range, busy, i, cursor, free)
    {
      var bs, be := busy[i].start, busy[i].end;
      if be <= range.start {
        SkipBusy(range, busy, i, cursor, free);
        i := i + 1;
        continue;
      }
      if bs >= range.end {
        break;
      }
      if bs < range.start { bs := range.start; }
      if be > range.end { be := range.end; }
      ComplementStep(range, busy, i, cursor, free, bs, be);
      if bs > cursor { free := free + [Interval(cursor, bs)]; }
      if be > cursor { cursor := be; }
      i := i + 1;
    }
    forall t ensures Covered(t, if cursor < range.end then free + [Interval(cursor, range.end)] else free)
                     <==> range.Holds(t) && !Covered(t, busy) {
      ComplementEnd(range, busy, i, cursor, free, t);
    }
    ComplementShape(range, busy, i, cursor, free);
    if cursor < range.end {
      free := free + [Interval(cursor, range.end)];
    }
  }

  lemma InvertStart(range: Interval, busy: seq<Interval>)
    requires range.NonEmpty()
    ensures Complemented(range, busy, 0, range.start, [])
  {
  }

  lemma ComplementShape(range: Interval, busy: seq<Interval>, i: nat, cursor: int, free: seq<Interval>)
    requires i <= |busy| && Complemented(range, busy, i, cursor, free)
    ensures AllNonEmpty(free) && cursor <= range.end
    ensures AllWellFormed(busy) ==> Disjoint(free, cursor)
  {
  }

  // --- Working hours -------------------------------------------------------------------------

  /**
   A time zone seen by the day walk: local midnight of a civil day, the civil day of
   an instant, the weekday of a day and the instant of a wall-clock minute of a day.
   */
  datatype Zone = Zone(midnight: int -> int, dayOf: int -> int, weekday: int -> int, wall: (int, int) -> int)

  /** Midnights ascend and belong to their own day, and a day's wall clock stays inside the day. */
  ghost predicate Civil(zone: Zone) {
    && (forall k :: zone.midnight(k) < zone.midnight(k + 1))
    && (forall t :: zone.midnight(zone.dayOf(t)) <= t < zone.midnight(zone.dayOf(t) + 1))
    && (forall k, m :: 0 <= m < DAY_MINUTES ==> zone.midnight(k) <= zone.wall(k, m) <= zone.midnight(k + 1))
  }

  datatype Options = Options(
    range: Interval, duration: int, hourStart: int, hourEnd: int, daysOfWeek: seq<int>, limit: int)
  {
    predicate UsesHours() { hourStart != 0 || hourEnd != 0 }
    predicate Overnight() { UsesHours() && hourEnd <= hourStart }
    predicate HoursInRange() { 0 <= hourStart <= DAY_MINUTES && 0 <= hourEnd <= DAY_MINUTES }
    predicate Selects(weekday: int) { daysOfWeek == [] || weekday in daysOfWeek }
  }

  /** Local time on the civil day of `day`; minute 1440 is the next midnight. */
  function LocalTimeOnDay(zone: Zone, day: int, minutes: int): int {
    var k := zone.dayOf(day);
    if minutes >= DAY_MINUTES then zone.midnight(k + 1)
    else zone.wall(k, if minutes < 0 then 0 else minutes)
  }

  function NextCivilDay(zone: Zone, day: int): int {
    zone.midnight(zone.dayOf(day) + 1)
  }

  function PrevCivilDay(zone: Zone, day: int): int {
    zone.midnight(zone.dayOf(day) - 1)
  }

  /** The shift that starts on the civil day whose midnight is `day`. */
  function Shift(zone: Zone, o: Options, day: int): Interval {
    if !o.UsesHours() then Interval(day, NextCivilDay(zone, day))
    else if !o.Overnight() then
      Interval(LocalTimeOnDay(zone, day, o.hourStart), LocalTimeOnDay(zone, day, o.hourEnd))
    else
      Interval(LocalTimeOnDay(zone, day, o.hourStart), LocalTimeOnDay(zone, NextCivilDay(zone, day), o.hourEnd))
  }

  /** Day number `k` starts a shift that holds `t`. */
  ghost predicate OnShift(zone: Zone, o: Options, k: int, t: int) {
    o.Selects(zone.weekday(k)) && Shift(zone, o, zone.midnight(k)).Holds(t)
  }

  /** Specification: some selected civil day starts a shift that holds `t`. */
  ghost predicate Allowed(zone: Zone, o: Options, t: int) {
    exists k :: OnShift(zone, o, k, t)
  }

  lemma {:induction false} MidnightsAscend(zone: Zone, a: int, b: int)
    requires Civil(zone) && a <= b
    ensures zone.midnight(a) + (b - a) <= zone.midnight(b)
    decreases b - a
  {
    if a < b {
      MidnightsAscend(zone, a, b - 1);
      assert zone.midnight(b - 1) < zone.midnight(b - 1 + 1);
    }
  }

  lemma DayOfMidnight(zone: Zone, k: int)
    requires Civil(zone)
    ensures zone.dayOf(zone.midnight(k)) == k
  {
    var j := zone.dayOf(zone.midnight(k));
    assert zone.midnight(j) <= zone.midnight(k) < zone.midnight(j + 1);
    if j < k {
      MidnightsAscend(zone, j + 1, k);
    } else if k < j {
      MidnightsAscend(zone, k, j);
    }
  }

  /** A shift lies between its own midnight and the second one after it. */
  lemma ShiftBounds(zone: Zone, o: Options, k: int)
    requires Civil(zone) && o.HoursInRange()
    ensures zone.midnight(k) <= Shift(zone, o, zone.midnight(k)).start
    ensures !o.Overnight() ==> Shift(zone, o, zone.midnight(k)).end <= zone.midnight(k + 1)
    ensures o.Overnight() ==> Shift(zone, o, zone.midnight(k)).end <= zone.midnight(k + 2)
  {
    DayOfMidnight(zone, k);
    DayOfMidnight(zone, k + 1);
    assert zone.midnight(k) < zone.midnight(k + 1);
    assert zone.midnight(k + 1) < zone.midnight(k + 1 + 1);
    assert k + 1 + 1 == k + 2;
    assert o.hourStart < DAY_MINUTES ==> zone.midnight(k) <= zone.wall(k, o.hourStart);
    assert o.hourEnd < DAY_MINUTES ==> zone.wall(k, o.hourEnd) <= zone.midnight(k + 1);
    assert o.hourEnd < DAY_MINUTES ==> zone.wall(k + 1, o.hourEnd) <= zone.midnight(k + 1 + 1);
  }

  /** The instant of a wall-clock minute; minute 1440 is the next midnight. */
  function At(zone: Zone, k: int, minute: int): int {
    if minute == 1440 then zone.midnight(k + 1) else zone.wall(k, minute)
  }

  /** `t` is at work on the shift of civil day `k`: whole days without hours, one day's hours, or overnight into the next day. */
  predicate AtWork(zone: Zone, hourStart: int, hourEnd: int, days: seq<int>, k: int, t: int) {
    && (days == [] || zone.weekday(k) in days)
    && (if hourStart == 0 && hourEnd == 0 then zone.midnight(k) <= t < zone.midnight(k + 1)
        else if hourStart < hourEnd then At(zone, k, hourStart) <= t < At(zone, k, hourEnd)
        else At(zone, k, hourStart) <= t < At(zone, k + 1, hourEnd))
  }

  predicate Overnight(zone: Zone, hourStart: int, hourEnd: int, days: seq<int>, k: int, t: int) {
    (days == [] || zone.weekday(k) in days) && zone.wall(k, hourStart) <= t < zone.wall(k + 1, hourEnd)
  }

  /** Allowed instants, on the zone alone. */
  lemma AllowedMeans(zone: Zone, o: Options, t: int)
    requires Civil(zone) && o.HoursInRange()
    ensures Allowed(zone, o, t) <==> exists k :: AtWork(zone, o.hourStart, o.hourEnd, o.daysOfWeek, k, t)
    ensures 0 < o.hourStart < 1440 && 0 <= o.hourEnd <= o.hourStart ==>
              (Allowed(zone, o, t) <==> exists k :: Overnight(zone, o.hourStart, o.hourEnd, o.daysOfWeek, k, t))
  {
    hide Civil;
    forall k ensures OnShift(zone, o, k, t) <==> AtWork(zone, o.hourStart, o.hourEnd, o.daysOfWeek, k, t) {
      DayOfMidnight(zone, k);
      DayOfMidnight(zone, k + 1);
    }
    if 0 < o.hourStart < 1440 && 0 <= o.hourEnd <= o.hourStart {
      forall k ensures AtWork(zone, o.hourStart, o.hourEnd, o.daysOfWeek, k, t)
                       <==> Overnight(zone, o.hourStart, o.hourEnd, o.daysOfWeek, k, t) {
      }
    }
  }

  function Intersect(a: Interval, b: Interval): (r: Interval)
    ensures forall t :: r.Holds(t) <==> a.Holds(t) && b.Holds(t)
  {
    Interval(if b.start > a.start then b.start else a.start, if b.end < a.end then b.end else a.end)
  }

  /** Days the walk has covered: `[first, k)`. */
  ghost predicate WalkedTo(zone: Zone, o: Options, win: Interval, first: int, k: int, out: seq<Interval>) {
    && AllNonEmpty(out)
    && (forall t :: Covered(t, out) <==> win.Holds(t) && WalkHolds(zone, o, first, k, t))
  }

  ghost predicate WalkHolds(zone: Zone, o: Options, first: int, k: int, t: int) {
    exists j :: first <= j < k && OnShift(zone, o, j, t)
  }

  lemma WalkStep(zone: Zone, o: Options, win: Interval, first: int, k: int, out: seq<Interval>)
    requires first <= k && WalkedTo(zone, o, win, first, k, out)
    ensures var inter := Intersect(win, Shift(zone, o, zone.midnight(k)));
            WalkedTo(zone, o, win, first, k + 1,
                     if o.Selects(zone.weekday(k)) && inter.NonEmpty() then out + [inter] else out)
  {
    hide Shift;
    var inter := Intersect(win, Shift(zone, o, zone.midnight(k)));
    var out' := if o.Selects(zone.weekday(k)) && inter.NonEmpty() then out + [inter] else out;
    forall t ensures Covered(t, out') <==> win.Holds(t) && WalkHolds(zone, o, first, k + 1, t) {
      CoveredSnoc(t, out, inter);
      if WalkHolds(zone, o, first, k + 1, t) && !WalkHolds(zone, o, first, k, t) {
        assert OnShift(zone, o, k, t);
      }
      if OnShift(zone, o, k, t) {
        assert WalkHolds(zone, o, first, k + 1, t);
      }
      if WalkHolds(zone, o, first, k, t) {
        assert WalkHolds(zone, o, first, k + 1, t);
      }
    }
  }

  /** Days outside the walk cannot touch the window. */
  lemma WalkIsComplete(zone: Zone, o: Options, win: Interval, first: int, k: int, t: int)
    requires Civil(zone) && o.HoursInRange() && win.Holds(t)
    requires first == (if o.Overnight() then zone.dayOf(win.start) - 1 else zone.dayOf(win.start))
    requires zone.midnight(k) > win.end
    ensures Allowed(zone, o, t) <==> WalkHolds(zone, o, first, k, t)
  {
    hide Shift;
    if Allowed(zone, o, t) {
      var j :| OnShift(zone, o, j, t);
      ShiftBounds(zone, o, j);
      var reach := if o.Overnight() then j + 2 else j + 1;
      if k <= j { MidnightsAscend(zone, k, j); }
      if reach <= zone.dayOf(win.start) { MidnightsAscend(zone, reach, zone.dayOf(win.start)); }
      assert zone.midnight(zone.dayOf(win.start)) <= win.start;
      assert first <= j < k;
    }
  }

  /** One window: exactly its allowed instants, found in finitely many day steps. */
  method ClipWindow(win: Interval, o: Options, zone: Zone) returns (out: seq<Interval>)
    requires Civil(zone) && o.HoursInRange()
    ensures AllNonEmpty(out)
    ensures forall t :: Covered(t, out) <==> win.Holds(t) && Allowed(zone, o, t)
  {
    hide WalkedTo, Shift, Civil, Allowed;
    out := [];
    ghost var k := zone.dayOf(win.start);
    var day := zone.midnight(zone.dayOf(win.start));
    DayOfMidnight(zone, k);
    if o.Overnight() {
      day := PrevCivilDay(zone, day);
      k := k - 1;
    }
    ghost var first := k;
    WalkStart(zone, o, win, k);
    while day <= win.end
      invariant first <= k && day == zone.midnight(k)
      invariant WalkedTo(zone, o, win, first, k, out)
      decreases win.end - day
    {
      DayOfMidnight(zone, k);
      MidnightsAscend(zone, k, k + 1);
      WalkStep(zone, o, win, first, k, out);
      if !o.Selects(zone.weekday(zone.dayOf(day))) {
        day := NextCivilDay(zone, day);
      } else {
        var inter := Intersect(win, Shift(zone, o, day));
        if inter.end > inter.start {
          out := out + [inter];
        }
        day := NextCivilDay(zone, day);
      }
      k := k + 1;
    }
    WalkEnd(zone, o, win, first, k, out);
  }

  lemma WalkStart(zone: Zone, o: Options, win: Interval, k: int)
    ensures WalkedTo(zone, o, win, k, k, [])
  {
  }

  lemma WalkEnd(zone: Zone, o: Options, win: Interval, first: int, k: int, out: seq<Interval>)
    requires Civil(zone) && o.HoursInRange() && WalkedTo(zone, o, win, first, k, out)
    requires first == (if o.Overnight() then zone.dayOf(win.start) - 1 else zone.dayOf(win.start))
    requires zone.midnight(k) > win.end
    ensures AllNonEmpty(out)
    ensures forall t :: Covered(t, out) <==> win.Holds(t) && Allowed(zone, o, t)
  {
    hide Civil, WalkHolds, Allowed;
    forall t ensures Covered(t, out) <==> win.Holds(t) && Allowed(zone, o, t) {
      if win.Holds(t) { WalkIsComplete(zone, o, win, first, k, t); }
    }
  }

  /** Clipped free time: sorted, separated, and exactly the allowed part of the free time. */
  method ClipWorkingHours(free: seq<Interval>, o: Options, zone: Zone) returns (clipped: seq<Interval>)
    requires Civil(zone) && o.HoursInRange()
    ensures forall t :: Covered(t, clipped) <==> Covered(t, free) && Allowed(zone, o, t)
    ensures Separated(clipped) && AllNonEmpty(clipped)
  {
    hide Civil, Allowed;
    var out: seq<Interval> := [];
    for i := 0 to |free|
      invariant AllNonEmpty(out)
      invariant forall t :: Covered(t, out) <==> Covered(t, free[..i]) && Allowed(zone, o, t)
    {
      var part := ClipWindow(free[i], o, zone);
      ghost var seen := free[..i + 1];
      assert seen == free[..i] + [free[i]];
      forall t ensures Covered(t, out + part) <==> Covered(t, seen) && Allowed(zone, o, t) {
        CoveredSnoc(t, free[..i], free[i]);
        CoveredAppend(t, out, part);
      }
      out := out + part;
    }
    assert free[..|free|] == free;
    clipped := MergeIntervals(out);
  }

  lemma CoveredAppend(t: int, a: seq<Interval>, b: seq<Interval>)
    ensures Covered(t, a + b) <==> Covered(t, a) || Covered(t, b)
  {
    var all := a + b;
    if Covered(t, a) {
      var i :| 0 <= i < |a| && a[i].Holds(t);
      assert all[i].Holds(t);
    }
    if Covered(t, b) {
      var i :| 0 <= i < |b| && b[i].Holds(t);
      assert all[|a| + i].Holds(t);
    }
    if Covered(t, all) {
      var i :| 0 <= i < |all| && all[i].Holds(t);
      assert i >= |a| ==> b[i - |a|].Holds(t);
    }
  }

  // --- Greedy placement -----------------------------------------------------------------------

  /** The whole of `slot` lies inside one of the windows. */
  ghost predicate Inside(slot: Interval, windows: seq<Interval>) {
    exists i :: 0 <= i < |windows| && windows[i].start <= slot.start && slot.end <= windows[i].end
  }

  ghost predicate Consecutive(slots: seq<Interval>) {
    forall i, j :: 0 <= i < j < |slots| ==> slots[i].end <= slots[j].start
  }

  /** Every placement of the duration inside the first `n` windows starts on a placed slot. */
  ghost predicate Exhausted(windows: seq<Interval>, n: nat, duration: int, slots: seq<Interval>)
    requires n <= |windows|
  {
    forall i, a :: 0 <= i < n && windows[i].start <= a <= windows[i].end - duration ==> Covered(a, slots)
  }

  lemma InsideOne(windows: seq<Interval>, i: nat, slot: Interval)
    requires i < |windows| && windows[i].start <= slot.start && slot.end <= windows[i].end
    ensures Inside(slot, windows)
  {
  }

  method PlaceSlots(windows: seq<Interval>, duration: int, limit: nat) returns (out: seq<Interval>)
    requires Separated(windows) && AllNonEmpty(windows) && duration > 0 && limit > 0
    ensures forall s :: s in out ==> s.end == s.start + duration && Inside(s, windows)
    ensures Consecutive(out) && |out| <= limit
    ensures |out| < limit ==> Exhausted(windows, |windows|, duration, out)
  {
    hide Inside, Covered;
    out := [];
    for i := 0 to |windows|
      invariant forall s :: s in out ==> s.end == s.start + duration && Inside(s, windows)
      invariant Consecutive(out) && |out| < limit
      invariant i < |windows| ==> forall s :: s in out ==> s.end <= windows[i].start
      invariant Exhausted(windows, i, duration, out)
    {
      var win := windows[i];
      var cursor := win.start;
      while cursor + duration <= win.end
        invariant win.start <= cursor <= win.end
        invariant forall s :: s in out ==> s.end == s.start + duration && Inside(s, windows)
        invariant Consecutive(out) && |out| < limit
        invariant forall s :: s in out ==> s.end <= cursor
        invariant Exhausted(windows, i, duration, out)
        invariant forall t :: win.start <= t < cursor ==> Covered(t, out)
        decreases win.end - cursor
      {
        var slot := Interval(cursor, cursor + duration);
        InsideOne(windows, i, slot);
        forall t ensures Covered(t, out + [slot]) <==> Covered(t, out) || slot.Holds(t) {
          CoveredSnoc(t, out, slot);
        }
        out := out + [slot];
        if |out| >= limit {
          return;
        }
        cursor := cursor + duration;
      }
      assert i + 1 < |windows| ==> win.end < windows[i + 1].start;
    }
  }

  /** Specification: an instant inside the range, in allowed hours, that no busy interval holds. */
  ghost predicate Free(zone: Zone, o: Options, busy: seq<Interval>, t: int) {
    o.range.Holds(t) && !Covered(t, busy) && Allowed(zone, o, t)
  }

  ghost predicate AllFree(zone: Zone, o: Options, busy: seq<Interval>, slot: Interval) {
    forall t :: slot.Holds(t) ==> Free(zone, o, busy, t)
  }

  /** A run of covered instants cannot cross the gap between separated windows. */
  lemma RunStaysInside(windows: seq<Interval>, slot: Interval)
    requires Separated(windows) && slot.NonEmpty()
    requires forall t :: slot.Holds(t) ==> Covered(t, windows)
    ensures Inside(slot, windows)
  {
    assert slot.Holds(slot.start);
    var i :| 0 <= i < |windows| && windows[i].Holds(slot.start);
    GapAfter(windows, i);
    assert !slot.Holds(windows[i].end);
  }

  /** The end of a window is an instant that no window holds. */
  lemma GapAfter(windows: seq<Interval>, i: nat)
    requires i < |windows| && Separated(windows) && windows[i].NonEmpty()
    ensures !Covered(windows[i].end, windows)
  {
    forall j | 0 <= j < |windows| ensures !windows[j].Holds(windows[i].end) {
      assert j < i ==> windows[j].end < windows[i].start;
      assert i < j ==> windows[i].end < windows[j].start;
    }
  }

  datatype Outcome = Slots(slots: seq<Interval>) | Invalid

  function SlotLimit(requested: int): (l: nat)
    ensures 1 <= requested <= 200 ==> l == requested
    ensures requested > 200 ==> l == 200
    ensures requested <= 0 ==> l == 50
  {
    if requested <= 0 then 50 else if requested > 200 then 200 else requested
  }

  /** Slots are sound, ordered, and maximal: nothing further fits when fewer than the limit return. */
  method FindFreeSlots(busy: seq<Interval>, o: Options, zone: Zone) returns (outcome: Outcome)
    requires Civil(zone)
    ensures outcome.Slots? <==>
      && o.range.start < o.range.end && 0 < o.duration <= o.range.end - o.range.start
      && 0 <= o.hourStart <= 1440 && 0 <= o.hourEnd <= 1440
      && forall d :: d in o.daysOfWeek ==> 0 <= d <= 6
    ensures outcome.Slots? ==>
      && (forall s :: s in outcome.slots ==> s.end - s.start == o.duration && AllFree(zone, o, busy, s))
      && Consecutive(outcome.slots)
      && |outcome.slots| <= SlotLimit(o.limit)
      && (|outcome.slots| < SlotLimit(o.limit) ==>
            forall a :: AllFree(zone, o, busy, Interval(a, a + o.duration)) ==> Covered(a, outcome.slots))
  {
    hide Civil, Allowed;
    if o.range.end <= o.range.start || o.duration <= 0 || o.duration > o.range.end - o.range.start {
      return Invalid;
    }
    if o.hourStart < 0 || o.hourStart > 24 * 60 || o.hourEnd < 0 || o.hourEnd > 24 * 60 {
      return Invalid;
    }
    for i := 0 to |o.daysOfWeek|
      invariant forall j :: 0 <= j < i ==> 0 <= o.daysOfWeek[j] <= 6
    {
      if o.daysOfWeek[i] < 0 || o.daysOfWeek[i] > 6 {
        assert o.daysOfWeek[i] in o.daysOfWeek;
        return Invalid;
      }
    }
    var merged := MergeIntervals(busy);
    var free := InvertBusy(o.range, merged);
    var windows := ClipWorkingHours(free, o, zone);
    assert forall t :: Covered(t, windows) <==> Free(zone, o, busy, t);
    var slots := PlaceSlots(windows, o.duration, SlotLimit(o.limit));
    forall s | s in slots ensures AllFree(zone, o, busy, s) {
      InsideIsFree(zone, o, busy, windows, s);
    }
    forall a | |slots| < SlotLimit(o.limit) && AllFree(zone, o, busy, Interval(a, a + o.duration))
      ensures Covered(a, slots)
    {
      RunStaysInside(windows, Interval(a, a + o.duration));
    }
    outcome := Slots(slots);
  }

  lemma InsideIsFree(zone: Zone, o: Options, busy: seq<Interval>, windows: seq<Interval>, slot: Interval)
    requires Inside(slot, windows) && forall t :: Covered(t, windows) <==> Free(zone, o, busy, t)
    ensures AllFree(zone, o, busy, slot)
  {
    hide Free;
    var i :| 0 <= i < |windows| && windows[i].start <= slot.start && slot.end <= windows[i].end;
    forall t | slot.Holds(t) ensures Free(zone, o, busy, t) {
      assert windows[i].Holds(t);
      assert Covered(t, windows);
    }
  }

  // --- Busy intervals from events ----------------------------------------------------------------

  datatype CalendarEvent = CalendarEvent(start: int, end: int, allDay: bool, ignored: bool)

  datatype BusyOptions = BusyOptions(includeAllDay: bool, bufferBefore: int, bufferAfter: int)

  /** The buffered interval an event keeps busy, if any; all-day dates are rebuilt in the zone. */
  function BusyInterval(e: CalendarEvent, b: BusyOptions, civilMidnight: int -> int): Interval {
    var start := if e.allDay then civilMidnight(e.start) else e.start;
    var end := if e.allDay then civilMidnight(e.end) else e.end;
    Interval(start - b.bufferBefore, end + b.bufferAfter)
  }

  predicate CountsAsBusy(e: CalendarEvent, b: BusyOptions, civilMidnight: int -> int) {
    !e.ignored && (e.allDay ==> b.includeAllDay) && BusyInterval(e, b, civilMidnight).NonEmpty()
  }

  /** Exactly the counting events block time, each for its buffered interval. */
  method BusyFromEvents(events: seq<CalendarEvent>, b: BusyOptions, civilMidnight: int -> int) returns (busy: seq<Interval>)
    ensures AllNonEmpty(busy)
    ensures forall iv :: iv in busy <==>
              exists i :: 0 <= i < |events| && CountsAsBusy(events[i], b, civilMidnight) && BusyInterval(events[i], b, civilMidnight) == iv
  {
    hide BusyInterval;
    busy := [];
    for i := 0 to |events|
      invariant AllNonEmpty(busy)
      invariant forall iv :: iv in busy <==>
                  exists j :: 0 <= j < i && CountsAsBusy(events[j], b, civilMidnight) && BusyInterval(events[j], b, civilMidnight) == iv
    {
      var e := events[i];
      if e.ignored || (e.allDay && !b.includeAllDay) {
        continue;
      }
      var iv := BusyInterval(e, b, civilMidnight);
      if iv.end <= iv.start {
        continue;
      }
      busy := busy + [iv];
    }
  }

  /** Some counting event's buffered interval holds `t`. */
  ghost predicate Booked(events: seq<CalendarEvent>, b: BusyOptions, civilMidnight: int -> int, t: int) {
    exists i :: 0 <= i < |events| && CountsAsBusy(events[i], b, civilMidnight) && BusyInterval(events[i], b, civilMidnight).Holds(t)
  }

  ghost predicate Bookable(
    zone: Zone, o: Options, events: seq<CalendarEvent>, b: BusyOptions, civilMidnight: int -> int, slot: Interval)
  {
    forall t :: slot.Holds(t) ==> o.range.Holds(t) && Allowed(zone, o, t) && !Booked(events, b, civilMidnight, t)
  }

  /** An instant is booked by an event that is not ignored, not an unwanted all-day one, and has time left with its buffers. */
  lemma BookedMeans(events: seq<CalendarEvent>, b: BusyOptions, civilMidnight: int -> int, t: int)
    ensures Booked(events, b, civilMidnight, t) <==>
      exists i :: 0 <= i < |events| && !events[i].ignored && (b.includeAllDay || !events[i].allDay)
        && (if events[i].allDay then civilMidnight(events[i].start) else events[i].start) - b.bufferBefore <= t
        && t < (if events[i].allDay then civilMidnight(events[i].end) else events[i].end) + b.bufferAfter
  {
  }

  lemma BusyIsBooked(events: seq<CalendarEvent>, b: BusyOptions, civilMidnight: int -> int, busy: seq<Interval>, t: int)
    requires forall iv :: iv in busy <==>
               exists i :: 0 <= i < |events| && CountsAsBusy(events[i], b, civilMidnight) && BusyInterval(events[i], b, civilMidnight) == iv
    ensures Covered(t, busy) <==> Booked(events, b, civilMidnight, t)
  {
    hide BusyInterval, CountsAsBusy;
    if Covered(t, busy) {
      var k :| 0 <= k < |busy| && busy[k].Holds(t);
      assert busy[k] in busy;
    }
    if Booked(events, b, civilMidnight, t) {
      var i :| 0 <= i < |events| && CountsAsBusy(events[i], b, civilMidnight) && BusyInterval(events[i], b, civilMidnight).Holds(t);
      var iv := BusyInterval(events[i], b, civilMidnight);
      assert iv in busy;
      var k :| 0 <= k < |busy| && busy[k] == iv;
    }
  }

  /** From events to slots: sound, ordered and maximal against the buffered time of the counting events. */
  method FreeSlotsForEvents(events: seq<CalendarEvent>, b: BusyOptions, o: Options, zone: Zone, civilMidnight: int -> int)
    returns (outcome: Outcome)
    requires Civil(zone)
    ensures outcome.Slots? <==>
      && o.range.start < o.range.end && 0 < o.duration <= o.range.end - o.range.start
      && 0 <= o.hourStart <= 1440 && 0 <= o.hourEnd <= 1440
      && forall d :: d in o.daysOfWeek ==> 0 <= d <= 6
    ensures outcome.Slots? ==>
      && (forall s :: s in outcome.slots ==> s.end - s.start == o.duration && Bookable(zone, o, events, b, civilMidnight, s))
      && Consecutive(outcome.slots)
      && |outcome.slots| <= SlotLimit(o.limit)
      && (|outcome.slots| < SlotLimit(o.limit) ==>
            forall a :: Bookable(zone, o, events, b, civilMidnight, Interval(a, a + o.duration)) ==> Covered(a, outcome.slots))
  {
    hide Civil, Allowed, Booked, Covered, BusyInterval, CountsAsBusy;
    var busy := BusyFromEvents(events, b, civilMidnight);
    outcome := FindFreeSlots(busy, o, zone);
    forall slot ensures AllFree(zone, o, busy, slot) <==> Bookable(zone, o, events, b, civilMidnight, slot) {
      forall t ensures Covered(t, busy) <==> Booked(events, b, civilMidnight, t) {
        BusyIsBooked(events, b, civilMidnight, busy, t);
      }
    }
  }
}
