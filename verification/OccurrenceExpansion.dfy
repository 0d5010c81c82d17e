/**
 Expansion of a recurring event into the rows of a time window. Instants are
 nanoseconds; the rule iterator is an arbitrary ascending sequence of whole-second
 instants; adding nominal days is an arbitrary function with a bounded drift.
 */
module OccurrenceExpansion {
  import opened Wrappers
  import opened Decimal
  import opened Sequences
  import RecurrenceRules

  const SECOND := 1_000_000_000
  const DAY := 86_400 * SECOND
  const MAX_OCCURRENCES := 2000
  const MAX_OVERRIDES := 512

  /** Adds civil days to an instant in the event's zone. */
  type AddDays = (int, nat) -> int

  /** `None` ends the rule; it then stays ended. */
  type Rule = nat -> Option<int>

  /** `details` stands for every field expansion copies unread. */
  datatype Event = Event(
    details: string, start: int, end: int, recurrence: string, recurrenceId: int, isOverride: bool,
    exDates: seq<int>, hasNominal: bool, nominalDays: nat, nominalRemainder: nat)
  {
    function NominalElapsed(): nat {
      nominalDays * DAY + nominalRemainder
    }

    /** Nominal durations come from a parsed DURATION, whose total fits the runtime type. */
    predicate DurationFits() {
      hasNominal ==> NominalElapsed() <= MAX_INT64
    }
  }

  datatype Window = Window(from: int, until: int)

  function UnixSecond(t: int): int {
    t / SECOND
  }

  /** `Time.Sub`: the difference, saturated to the runtime's duration type. */
  function Sub(a: int, b: int): int {
    if a - b > MAX_INT64 then MAX_INT64
    else if a - b < -MAX_INT64 - 1 then -MAX_INT64 - 1
    else a - b
  }

  function OccurrenceEnd(master: Event, addDays: AddDays, start: int): int {
    if master.hasNominal then addDays(start, master.nominalDays) + master.nominalRemainder
    else start + Sub(master.end, master.start)
  }

  predicate Overlaps(start: int, end: int, w: Window) {
    start < w.until && end > w.from
  }

  // --- The widened lower bound -----------------------------------------------------------

  function OverlapDuration(master: Event): (d: nat) {
    var fixed := Sub(master.end, master.start);
    var duration := if fixed < 0 then 0 else fixed;
    if !master.hasNominal then duration
    else
      var elapsed := master.NominalElapsed();
      var widened := if elapsed <= MAX_INT64 - DAY then elapsed + DAY else elapsed;
      if widened > duration then widened else duration
  }

  function LowerBound(master: Event, w: Window): int {
    w.from - OverlapDuration(master)
  }

  /** Nominal days never end more than a day away from the elapsed count. */
  ghost predicate DriftsAtMostADay(addDays: AddDays) {
    forall t, d: nat :: -DAY <= addDays(t, d) - (t + d * DAY) <= DAY
  }

  /** The bound reaches back as far as any drift can. */
  predicate WidensEnough(master: Event) {
    master.hasNominal ==> master.NominalElapsed() + DAY <= OverlapDuration(master) + 1
  }

  // --- Specification of the rows -----------------------------------------------------------

  /** The iterator ascends over whole seconds and never resumes after its end. */
  ghost predicate WellBehaved(rule: Rule) {
    && (forall i: nat, j: nat :: i < j && rule(j).Some? ==> rule(i).Some? && rule(i).value < rule(j).value)
    && (forall i: nat :: rule(i).Some? ==> rule(i).value % SECOND == 0)
  }

  predicate Excluded(master: Event, occ: int) {
    exists x :: x in master.exDates && UnixSecond(x) == UnixSecond(occ)
  }

  /** An override as it is shown: never a series master. */
  function Shown(o: Event): Event {
    o.(recurrence := "", isOverride := true)
  }

  /** Overrides by the UTC second they replace; a later one wins. */
  function OverrideMap(overrides: seq<Event>): (m: map<int, Event>)
    ensures forall k :: k in m ==> UnixSecond(m[k].recurrenceId) == k && m[k].isOverride
    ensures forall k :: k in m <==> exists i :: 0 <= i < |overrides| && UnixSecond(overrides[i].recurrenceId) == k
  {
    if overrides == [] then map[]
    else
      var last := overrides[|overrides| - 1];
      OverrideMap(overrides[..|overrides| - 1])[UnixSecond(last.recurrenceId) := Shown(last)]
  }

  /** The override that replaces a second: the last one written for it. */
  ghost predicate IsLastFor(overrides: seq<Event>, i: nat) {
    && i < |overrides|
    && forall j :: i < j < |overrides| ==> UnixSecond(overrides[j].recurrenceId) != UnixSecond(overrides[i].recurrenceId)
  }

  ghost predicate ReplacesAt(overrides: seq<Event>, i: nat, k: int, e: Event) {
    && IsLastFor(overrides, i) && UnixSecond(overrides[i].recurrenceId) == k
    && e == overrides[i].(recurrence := "", isOverride := true)
  }

  lemma ReplacesFront(overrides: seq<Event>, i: nat, k: int, e: Event)
    requires i + 1 < |overrides|
    ensures var n := |overrides| - 1;
            ReplacesAt(overrides, i, k, e) <==>
              ReplacesAt(overrides[..n], i, k, e) && UnixSecond(overrides[n].recurrenceId) != k
  {
    hide UnixSecond;
    var front := overrides[..|overrides| - 1];
    assert forall j :: 0 <= j < |front| ==> front[j] == overrides[j];
  }

  /** The map holds exactly the last override of each second, shown without a rule and marked as an override. */
  lemma {:induction false} OverrideMapMeans(overrides: seq<Event>, k: int, e: Event)
    ensures k in OverrideMap(overrides) && OverrideMap(overrides)[k] == e <==>
              exists i: nat :: ReplacesAt(overrides, i, k, e)
  {
    if overrides != [] {
      var n := |overrides| - 1;
      assert IsLastFor(overrides, n);
      OverrideMapMeans(overrides[..n], k, e);
      hide UnixSecond, ReplacesAt;
      forall i: nat | i < n
        ensures ReplacesAt(overrides, i, k, e) <==>
                  ReplacesAt(overrides[..n], i, k, e) && UnixSecond(overrides[n].recurrenceId) != k
      {
        ReplacesFront(overrides, i, k, e);
      }
      ReplacesInside(overrides, k, e);
      ReplacesInside(overrides[..n], k, e);
      LastReplaces(overrides, k, e);
    } else {
      assert forall i: nat :: !ReplacesAt(overrides, i, k, e);
    }
  }

  lemma ReplacesInside(overrides: seq<Event>, k: int, e: Event)
    ensures forall i: nat :: ReplacesAt(overrides, i, k, e) ==> i < |overrides|
  {
  }

  lemma LastReplaces(overrides: seq<Event>, k: int, e: Event)
    requires overrides != []
    ensures var last := overrides[|overrides| - 1];
            ReplacesAt(overrides, |overrides| - 1, k, e) <==> UnixSecond(last.recurrenceId) == k && e == Shown(last)
  {
  }

  /** The row of an unmodified occurrence. */
  function Clone(master: Event, addDays: AddDays, occ: int): Event {
    master.(start := occ, end := OccurrenceEnd(master, addDays, occ), exDates := [],
            recurrence := "", recurrenceId := occ, isOverride := false)
  }

  /** An occurrence of the rule that survives EXDATE and overlaps the window. */
  ghost predicate VisibleStart(master: Event, rule: Rule, addDays: AddDays, w: Window, occ: int) {
    && (exists n: nat :: rule(n) == Some(occ))
    && !Excluded(master, occ)
    && Overlaps(occ, OccurrenceEnd(master, addDays, occ), w)
  }

  /** A visible occurrence that the widened lower bound lets through. */
  ghost predicate Reached(master: Event, rule: Rule, addDays: AddDays, w: Window, occ: int) {
    LowerBound(master, w) <= occ && VisibleStart(master, rule, addDays, w, occ)
  }

  ghost predicate IsOverrideRow(m: map<int, Event>, w: Window, e: Event) {
    exists k :: k in m && m[k] == e && Overlaps(e.start, e.end, w)
  }

  ghost predicate IsRuleRow(master: Event, m: map<int, Event>, rule: Rule, addDays: AddDays, w: Window, e: Event) {
    && VisibleStart(master, rule, addDays, w, e.recurrenceId)
    && UnixSecond(e.recurrenceId) !in m
    && e == Clone(master, addDays, e.recurrenceId)
  }

  /** Specification: the rows a recurring event contributes to a window. */
  ghost predicate IsRow(master: Event, overrides: seq<Event>, rule: Rule, addDays: AddDays, w: Window, e: Event) {
    || IsOverrideRow(OverrideMap(overrides), w, e)
    || IsRuleRow(master, OverrideMap(overrides), rule, addDays, w, e)
  }

  /** Specification of what expansion shows: a rule row only when the bound reaches its start. */
  ghost predicate IsShownRow(master: Event, overrides: seq<Event>, rule: Rule, addDays: AddDays, w: Window, e: Event) {
    || IsOverrideRow(OverrideMap(overrides), w, e)
    || (LowerBound(master, w) <= e.recurrenceId && IsRuleRow(master, OverrideMap(overrides), rule, addDays, w, e))
  }

  // --- What a shown row holds -------------------------------------------------------------------

  /** The end of an occurrence: fixed events keep the master's saturated length, nominal ones their days. */
  ghost predicate EndsAsMaster(master: Event, addDays: AddDays, start: int, end: int) {
    if master.hasNominal then end == addDays(start, master.nominalDays) + master.nominalRemainder
    else
      var length := master.end - master.start;
      end == start + (if length > 0x7fff_ffff_ffff_ffff then 0x7fff_ffff_ffff_ffff
                      else if length < -0x8000_0000_0000_0000 then -0x8000_0000_0000_0000
                      else length)
  }

  /** An override row: the last override of its second, as itself. */
  ghost predicate ShowsOverride(overrides: seq<Event>, e: Event) {
    exists i: nat :: IsLastFor(overrides, i) && e == overrides[i].(recurrence := "", isOverride := true)
  }

  /** A rule row: its own start is a rule instant that is neither excluded nor replaced, and the rest is the master's. */
  ghost predicate ShowsOccurrence(master: Event, overrides: seq<Event>, rule: Rule, addDays: AddDays, e: Event) {
    && (exists n: nat :: rule(n) == Some(e.start))
    && e.recurrenceId == e.start && EndsAsMaster(master, addDays, e.start, e.end)
    && (forall x :: x in master.exDates ==> x / SECOND != e.start / SECOND)
    && (forall i :: 0 <= i < |overrides| ==> overrides[i].recurrenceId / SECOND != e.start / SECOND)
    && e.details == master.details && e.recurrence == "" && !e.isOverride && e.exDates == []
    && e.hasNominal == master.hasNominal && e.nominalDays == master.nominalDays
    && e.nominalRemainder == master.nominalRemainder
  }

  /**
   What a row is: it overlaps the window by its own start and end, and it is either an
   override or an occurrence of the rule that the bound reaches.
   */
  lemma ShownRowMeans(master: Event, overrides: seq<Event>, rule: Rule, addDays: AddDays, w: Window, e: Event)
    ensures IsShownRow(master, overrides, rule, addDays, w, e) <==>
      && e.start < w.until && e.end > w.from
      && (|| ShowsOverride(overrides, e)
          || (LowerBound(master, w) <= e.start && ShowsOccurrence(master, overrides, rule, addDays, e)))
  {
    hide OverrideMap, LowerBound;
    OverrideRowMeans(overrides, w, e);
    EndMeans(master, addDays, e.start, e.end);
    EndMeans(master, addDays, e.recurrenceId, e.end);
  }

  lemma OverrideRowMeans(overrides: seq<Event>, w: Window, e: Event)
    ensures IsOverrideRow(OverrideMap(overrides), w, e) <==> Overlaps(e.start, e.end, w) && ShowsOverride(overrides, e)
  {
    hide OverrideMap, UnixSecond;
    var m := OverrideMap(overrides);
    if IsOverrideRow(m, w, e) {
      var k :| k in m && m[k] == e;
      OverrideMapMeans(overrides, k, e);
      var i: nat :| ReplacesAt(overrides, i, k, e);
    }
    if ShowsOverride(overrides, e) {
      var i: nat :| IsLastFor(overrides, i) && e == overrides[i].(recurrence := "", isOverride := true);
      assert ReplacesAt(overrides, i, UnixSecond(overrides[i].recurrenceId), e);
      OverrideMapMeans(overrides, UnixSecond(overrides[i].recurrenceId), e);
    }
  }

  lemma EndMeans(master: Event, addDays: AddDays, start: int, end: int)
    ensures end == OccurrenceEnd(master, addDays, start) <==> EndsAsMaster(master, addDays, start, end)
  {
  }

  // --- What the bound loses ------------------------------------------------------------------

  /** The zone drifts at most a day and gives the master the end it was parsed with. */
  ghost predicate FitsZone(master: Event, addDays: AddDays) {
    && DriftsAtMostADay(addDays)
    && (master.hasNominal ==> master.end == OccurrenceEnd(master, addDays, master.start))
  }

  /** The master's own end is within a day of its elapsed count: some zone parses it so. */
  predicate Parseable(master: Event) {
    master.hasNominal ==> -DAY <= master.end - (master.start + master.NominalElapsed()) <= DAY
  }

  /** The rule iterates instants from the master's start on. */
  ghost predicate IteratesFrom(rule: Rule, start: int) {
    WellBehaved(rule) && forall n: nat :: rule(n).Some? ==> start <= rule(n).value
  }

  /** No visible occurrence of any rule starts before the bound, whatever the zone does. */
  ghost predicate LosesNothing(master: Event) {
    forall rule: Rule, addDays: AddDays, w: Window, occ: int ::
      IteratesFrom(rule, master.start) && FitsZone(master, addDays) && VisibleStart(master, rule, addDays, w, occ) ==>
        LowerBound(master, w) <= occ
  }

  /** The guard that skips widening is the only way to lose an occurrence. */
  lemma GuardWidens(master: Event)
    requires master.DurationFits()
    ensures master.NominalElapsed() <= MAX_INT64 - DAY ==> WidensEnough(master)
    ensures (&& master.hasNominal && master.NominalElapsed() > MAX_INT64 - DAY
             && Sub(master.end, master.start) <= master.NominalElapsed()) ==> !WidensEnough(master)
  {
  }

  lemma WideBound(master: Event, addDays: AddDays, w: Window, occ: int)
    requires WidensEnough(master) && DriftsAtMostADay(addDays)
    requires Overlaps(occ, OccurrenceEnd(master, addDays, occ), w)
    ensures LowerBound(master, w) <= occ
  {
    if master.hasNominal {
      assert addDays(occ, master.nominalDays) <= occ + master.nominalDays * DAY + DAY;
    }
  }

  /** A zone exists for exactly the parseable masters. */
  lemma ParseableExact(master: Event)
    ensures Parseable(master) <==> exists addDays: AddDays :: FitsZone(master, addDays)
  {
    if Parseable(master) {
      assert FitsZone(master, LateZone(master));
    }
    if addDays: AddDays :| FitsZone(master, addDays) {
      assert master.hasNominal ==>
        -DAY <= addDays(master.start, master.nominalDays) - (master.start + master.nominalDays * DAY) <= DAY;
    }
  }

  /** Late by a full day everywhere but at the master's own start. */
  function LateZone(master: Event): AddDays {
    (t: int, d: nat) =>
      if t == master.start && d == master.nominalDays && Parseable(master) && master.hasNominal
      then master.end - master.nominalRemainder
      else t + d * DAY + DAY
  }

  /** A whole-second instant after `start` that no EXDATE excludes. */
  lemma {:induction false} FreshInstant(exDates: seq<int>, start: int) returns (occ: int)
    ensures occ > start && occ % SECOND == 0 && forall x :: x in exDates ==> UnixSecond(x) < UnixSecond(occ)
  {
    if exDates == [] {
      occ := (start / SECOND + 1) * SECOND;
    } else {
      var n := |exDates| - 1;
      var rest := FreshInstant(exDates[..n], start);
      var after := (exDates[n] / SECOND + 1) * SECOND;
      occ := if after > rest then after else rest;
      assert exDates == exDates[..n] + [exDates[n]];
    }
  }

  /** An occurrence that a bound too short does not reach. */
  lemma LostOccurrence(master: Event) returns (rule: Rule, addDays: AddDays, w: Window, occ: int)
    requires Parseable(master) && !WidensEnough(master)
    ensures IteratesFrom(rule, master.start) && FitsZone(master, addDays)
    ensures VisibleStart(master, rule, addDays, w, occ) && occ < LowerBound(master, w)
  {
    addDays := LateZone(master);
    occ := FreshInstant(master.exDates, master.start);
    rule := (n: nat) => if n == 0 then Some(occ) else None;
    assert rule(0) == Some(occ);
    w := Window(occ + OverlapDuration(master) + 1, occ + OverlapDuration(master) + 2);
  }

  /** The widened bound loses nothing exactly when it reaches back a full day of drift, for every master a zone can give. */
  lemma LowerBoundExact(master: Event)
    ensures LosesNothing(master) <==> WidensEnough(master) || !Parseable(master)
  {
    hide WidensEnough, Parseable, IteratesFrom;
    if WidensEnough(master) || !Parseable(master) {
      forall rule: Rule, addDays: AddDays, w: Window, occ: int
        | IteratesFrom(rule, master.start) && FitsZone(master, addDays) && VisibleStart(master, rule, addDays, w, occ)
        ensures LowerBound(master, w) <= occ
      {
        ParseableExact(master);
        WideBound(master, addDays, w, occ);
      }
    } else {
      var rule, addDays, w, occ := LostOccurrence(master);
    }
  }

  /** An untruncated expansion shows every specified row. */
  ghost predicate ShowsEverything(master: Event) {
    forall overrides: seq<Event>, rule: Rule, addDays: AddDays, w: Window, e: Event ::
      IteratesFrom(rule, master.start) && FitsZone(master, addDays) && IsRow(master, overrides, rule, addDays, w, e) ==>
        IsShownRow(master, overrides, rule, addDays, w, e)
  }

  /** Expansion is complete exactly when the bound reaches back a full day of drift. */
  lemma ShowsEverythingExact(master: Event)
    ensures ShowsEverything(master) <==> WidensEnough(master) || !Parseable(master)
  {
    hide WidensEnough, Parseable, IteratesFrom, UnixSecond, OccurrenceEnd, LowerBound;
    LowerBoundExact(master);
    if Parseable(master) && !WidensEnough(master) {
      var rule, addDays, w, occ := LostOccurrence(master);
      var e := Clone(master, addDays, occ);
      assert IsRow(master, [], rule, addDays, w, e) && !IsShownRow(master, [], rule, addDays, w, e);
    }
  }

  const LONG_EVENT := Event("", 0, 106751 * DAY, "FREQ=YEARLY", 0, false, [], true, 106751, 0)
  const YEAR := 365 * DAY

  /** A zone that ends nominal days an hour late after the epoch. */
  function HourLate(): AddDays {
    (t: int, d: nat) => t + d * DAY + if t > 0 then 3600 * SECOND else 0
  }

  function TwoYears(): Rule {
    (n: nat) => if n == 0 then Some(0) else if n == 1 then Some(YEAR) else None
  }

  lemma LongEventFits()
    ensures LONG_EVENT.DurationFits() && IteratesFrom(TwoYears(), LONG_EVENT.start) && FitsZone(LONG_EVENT, HourLate())
    ensures OccurrenceEnd(LONG_EVENT, HourLate(), YEAR) == YEAR + 106751 * DAY + 3600 * SECOND
    ensures OverlapDuration(LONG_EVENT) == 106751 * DAY
  {
  }

  /**
   A yearly event of 106751 nominal days, whose second occurrence meets a clock change of
   an hour: expansion of some window shows no row for an occurrence that overlaps it.
   */
  lemma BoundMayLose() returns (w: Window, e: Event)
    ensures LONG_EVENT.DurationFits() && IteratesFrom(TwoYears(), LONG_EVENT.start) && FitsZone(LONG_EVENT, HourLate())
    ensures IsRow(LONG_EVENT, [], TwoYears(), HourLate(), w, e)
    ensures !IsShownRow(LONG_EVENT, [], TwoYears(), HourLate(), w, e)
  {
    LongEventFits();
    hide IteratesFrom, FitsZone, OccurrenceEnd, OverlapDuration, HourLate, UnixSecond;
    w := Window(YEAR + 106751 * DAY + 1, YEAR + 106751 * DAY + 2);
    e := Clone(LONG_EVENT, HourLate(), YEAR);
    assert TwoYears()(1) == Some(YEAR);
    assert VisibleStart(LONG_EVENT, TwoYears(), HourLate(), w, YEAR);
  }

  ghost predicate Ascends(starts: seq<int>) {
    forall i, j :: 0 <= i < j < |starts| ==> UnixSecond(starts[i]) < UnixSecond(starts[j])
  }

  ghost predicate AllVisible(master: Event, rule: Rule, addDays: AddDays, w: Window, starts: seq<int>) {
    Ascends(starts) && forall x :: x in starts ==> VisibleStart(master, rule, addDays, w, x)
  }

  /** The rule really has more than `limit` visible starts. */
  ghost predicate MoreStarts(master: Event, rule: Rule, addDays: AddDays, w: Window, limit: nat) {
    exists starts :: |starts| == limit + 1 && AllVisible(master, rule, addDays, w, starts)
  }

  ghost predicate AllRows(
    master: Event, overrides: seq<Event>, rule: Rule, addDays: AddDays, w: Window, rows: seq<Event>)
  {
    Distinct(rows) && forall e :: e in rows ==> IsShownRow(master, overrides, rule, addDays, w, e)
  }

  /** The window really has more than `limit` rows. */
  ghost predicate MoreRows(
    master: Event, overrides: seq<Event>, rule: Rule, addDays: AddDays, w: Window, limit: nat)
  {
    exists rows :: |rows| > limit && AllRows(master, overrides, rule, addDays, w, rows)
  }

  datatype Failure = WorkExceeded | Canceled | TooManyOverrides

  datatype Outcome<T> = Done(value: T) | Failed(error: Failure)

  datatype Starts = Starts(instants: seq<int>, truncated: bool)

  datatype Rows = Rows(events: seq<Event>, truncated: bool)

  // --- Iterating the rule ----------------------------------------------------------------

  lemma SecondsApart(rule: Rule, i: nat, j: nat)
    requires WellBehaved(rule) && i < j && rule(j).Some?
    ensures rule(i).Some? && UnixSecond(rule(i).value) < UnixSecond(rule(j).value)
  {
    var a, b := rule(i).value, rule(j).value;
    assert a == SECOND * (a / SECOND) && b == SECOND * (b / SECOND);
  }

  /** The starts found among the first `n` iterator results. */
  ghost predicate Collected(
    master: Event, rule: Rule, addDays: AddDays, w: Window, n: nat, starts: seq<int>)
  {
    && Ascends(starts)
    && (forall k: nat :: k < n ==> rule(k).Some?)
    && (forall x :: x in starts ==>
          Reached(master, rule, addDays, w, x) && exists k: nat :: k < n && rule(k) == Some(x))
    && (forall k: nat :: k < n && Reached(master, rule, addDays, w, rule(k).value) ==> rule(k).value in starts)
  }

  lemma CollectSkip(master: Event, rule: Rule, addDays: AddDays, w: Window, n: nat, starts: seq<int>)
    requires Collected(master, rule, addDays, w, n, starts)
    requires rule(n).Some? && !Reached(master, rule, addDays, w, rule(n).value)
    ensures Collected(master, rule, addDays, w, n + 1, starts)
  {
    hide VisibleStart, Reached;
  }

  lemma CollectAdd(master: Event, rule: Rule, addDays: AddDays, w: Window, n: nat, starts: seq<int>)
    requires WellBehaved(rule) && Collected(master, rule, addDays, w, n, starts)
    requires rule(n).Some? && Reached(master, rule, addDays, w, rule(n).value)
    ensures Collected(master, rule, addDays, w, n + 1, starts + [rule(n).value])
  {
    hide VisibleStart, Reached, UnixSecond;
    var longer := starts + [rule(n).value];
    forall i | 0 <= i < |starts| ensures UnixSecond(starts[i]) < UnixSecond(rule(n).value) {
      assert starts[i] in starts;
      var k: nat :| k < n && rule(k) == Some(starts[i]);
      SecondsApart(rule, k, n);
    }
  }

  /** Nothing after the iterator ends, or passes the window, is visible. */
  lemma CollectEnd(master: Event, rule: Rule, addDays: AddDays, w: Window, n: nat, starts: seq<int>, x: int)
    requires WellBehaved(rule) && Collected(master, rule, addDays, w, n, starts)
    requires rule(n).None? || rule(n).value > w.until
    requires Reached(master, rule, addDays, w, x)
    ensures x in starts
  {
    var k: nat :| rule(k) == Some(x);
    assert n < k ==> rule(n).Some?;
  }

  method CollectStarts(
    master: Event, rule: Rule, addDays: AddDays, w: Window, limit: nat,
    canceled: nat -> bool, series: int, remaining: int)
    returns (result: Outcome<Starts>, series': int, remaining': int)
    requires WellBehaved(rule)
    ensures result.Done? ==>
              var Starts(starts, truncated) := result.value;
              && Ascends(starts) && |starts| <= limit
              && (forall x :: x in starts ==> Reached(master, rule, addDays, w, x))
              && (!truncated ==> forall x :: Reached(master, rule, addDays, w, x) ==> x in starts)
              && (truncated ==> |starts| == limit && MoreStarts(master, rule, addDays, w, limit))
    ensures result.Failed? ==> !result.error.TooManyOverrides?
    ensures result == Failed(WorkExceeded) ==>
              series' <= 0 || remaining' <= 0 || series - series' == RecurrenceRules.MAX_EXPANSION_WORK
    ensures result == Failed(Canceled) ==> exists i: nat :: canceled(i)
    ensures series - series' == remaining - remaining' && series' <= series
    ensures remaining >= 0 && series >= 0 ==> remaining' >= 0 && series' >= 0
    ensures series - series' <= RecurrenceRules.MAX_EXPANSION_WORK
  {
    hide Collected, VisibleStart, Reached, UnixSecond, OccurrenceEnd, LowerBound, WellBehaved, Excluded;
    var starts: seq<int> := [];
    var advances := 0;
    series', remaining' := series, remaining;
    Started(master, rule, addDays, w);
    while true
      invariant advances == series - series' == remaining - remaining'
      invariant 0 <= advances <= RecurrenceRules.MAX_EXPANSION_WORK
      invariant advances == 0 || (remaining' >= 0 && series' >= 0)
      invariant Collected(master, rule, addDays, w, advances, starts)
      invariant |starts| <= limit
      decreases RecurrenceRules.MAX_EXPANSION_WORK - advances
    {
      if canceled(advances) {
        return Failed(Canceled), series', remaining';
      }
      if advances >= RecurrenceRules.MAX_EXPANSION_WORK || series' <= 0 || remaining' <= 0 {
        return Failed(WorkExceeded), series', remaining';
      }
      var next := rule(advances);
      ghost var n := advances;
      advances, series', remaining' := advances + 1, series' - 1, remaining' - 1;
      if next.None? || next.value > w.until {
        CollectedGives(master, rule, addDays, w, n, starts);
        forall x | Reached(master, rule, addDays, w, x) ensures x in starts {
          CollectEnd(master, rule, addDays, w, n, starts, x);
        }
        return Done(Starts(starts, false)), series', remaining';
      }
      var occ := next.value;
      LoopFilters(master, rule, addDays, w, n);
      if occ < LowerBound(master, w) || Excluded(master, occ)
         || !Overlaps(occ, OccurrenceEnd(master, addDays, occ), w)
      {
        CollectSkip(master, rule, addDays, w, n, starts);
        continue;
      }
      CollectAdd(master, rule, addDays, w, n, starts);
      starts := starts + [occ];
      if |starts| == limit + 1 {
        CollectedGives(master, rule, addDays, w, advances, starts);
        assert MoreStarts(master, rule, addDays, w, limit);
        starts := starts[..limit];
        return Done(Starts(starts, true)), series', remaining';
      }
    }
  }

  lemma Started(master: Event, rule: Rule, addDays: AddDays, w: Window)
    ensures Collected(master, rule, addDays, w, 0, [])
  {
  }

  lemma CollectedGives(master: Event, rule: Rule, addDays: AddDays, w: Window, n: nat, starts: seq<int>)
    requires Collected(master, rule, addDays, w, n, starts)
    ensures Ascends(starts) && forall x :: x in starts ==> Reached(master, rule, addDays, w, x)
    ensures AllVisible(master, rule, addDays, w, starts)
  {
    hide VisibleStart;
  }

  /** The three filters of the loop are exactly what makes a rule start reached. */
  lemma LoopFilters(master: Event, rule: Rule, addDays: AddDays, w: Window, n: nat)
    requires rule(n).Some?
    ensures Reached(master, rule, addDays, w, rule(n).value) <==>
              && LowerBound(master, w) <= rule(n).value && !Excluded(master, rule(n).value)
              && Overlaps(rule(n).value, OccurrenceEnd(master, addDays, rule(n).value), w)
  {
    hide Excluded, OccurrenceEnd, LowerBound;
  }

  // --- Building the rows -------------------------------------------------------------------

  method MapOverrides(overrides: seq<Event>) returns (m: map<int, Event>)
    ensures m == OverrideMap(overrides)
  {
    m := map[];
    for i := 0 to |overrides|
      invariant m == OverrideMap(overrides[..i])
    {
      assert overrides[..i + 1][..i] == overrides[..i];
      m := m[UnixSecond(overrides[i].recurrenceId) := Shown(overrides[i])];
    }
    assert overrides[..|overrides|] == overrides;
  }

  /** Row produced for one collected start, if any. */
  function RowFor(master: Event, m: map<int, Event>, addDays: AddDays, w: Window, occ: int): Option<Event> {
    var key := UnixSecond(occ);
    if key !in m then Some(Clone(master, addDays, occ))
    else if Overlaps(m[key].start, m[key].end, w) then Some(m[key])
    else None
  }

  function RowKey(e: Event): int {
    UnixSecond(e.recurrenceId)
  }

  /** Rows have distinct keys, hence are distinct. */
  ghost predicate DistinctKeys(rows: seq<Event>) {
    forall i, j :: 0 <= i < j < |rows| ==> RowKey(rows[i]) != RowKey(rows[j])
  }

  /** Rows ascend by the second they stand for. */
  ghost predicate AscendingKeys(rows: seq<Event>) {
    forall i, j :: 0 <= i < j < |rows| ==> RowKey(rows[i]) < RowKey(rows[j])
  }

  /** Rows of rule slots come first, ascending; overrides without a slot among them follow. */
  ghost predicate SlotsFirst(rows: seq<Event>) {
    exists k :: 0 <= k <= |rows| && AscendingKeys(rows[..k]) && forall i :: k <= i < |rows| ==> rows[i].isOverride
  }

  /** The rows of the starts, in order. */
  function StartRows(master: Event, m: map<int, Event>, addDays: AddDays, w: Window, starts: seq<int>): seq<Event> {
    if starts == [] then []
    else
      var row := RowFor(master, m, addDays, w, starts[|starts| - 1]);
      StartRows(master, m, addDays, w, starts[..|starts| - 1]) + if row.Some? then [row.value] else []
  }

  /** Some start produces the row `e`. */
  ghost predicate Yields(master: Event, m: map<int, Event>, addDays: AddDays, w: Window, starts: seq<int>, e: Event) {
    exists i :: 0 <= i < |starts| && RowFor(master, m, addDays, w, starts[i]) == Some(e)
  }

  lemma {:induction false} StartRowsMember(
    master: Event, m: map<int, Event>, addDays: AddDays, w: Window, starts: seq<int>, e: Event)
    ensures e in StartRows(master, m, addDays, w, starts) <==> Yields(master, m, addDays, w, starts, e)
  {
    hide RowFor;
    if starts != [] {
      var last := |starts| - 1;
      StartRowsMember(master, m, addDays, w, starts[..last], e);
      assert starts == starts[..last] + [starts[last]];
      if Yields(master, m, addDays, w, starts[..last], e) {
        var i :| 0 <= i < last && RowFor(master, m, addDays, w, starts[..last][i]) == Some(e);
        assert RowFor(master, m, addDays, w, starts[i]) == Some(e);
      }
      if Yields(master, m, addDays, w, starts, e) {
        var i :| 0 <= i < |starts| && RowFor(master, m, addDays, w, starts[i]) == Some(e);
        assert i < last ==> RowFor(master, m, addDays, w, starts[..last][i]) == Some(e);
      }
    }
  }

  lemma RowForKey(master: Event, m: map<int, Event>, addDays: AddDays, w: Window, occ: int)
    requires forall k :: k in m ==> RowKey(m[k]) == k
    ensures var row := RowFor(master, m, addDays, w, occ); row.Some? ==> RowKey(row.value) == UnixSecond(occ)
  {
    hide UnixSecond;
  }

  lemma YieldKey(master: Event, m: map<int, Event>, addDays: AddDays, w: Window, starts: seq<int>, e: Event) returns (i: nat)
    requires forall k :: k in m ==> RowKey(m[k]) == k
    requires e in StartRows(master, m, addDays, w, starts)
    ensures i < |starts| && UnixSecond(starts[i]) == RowKey(e)
  {
    hide RowFor, RowKey, UnixSecond;
    StartRowsMember(master, m, addDays, w, starts, e);
    i :| 0 <= i < |starts| && RowFor(master, m, addDays, w, starts[i]) == Some(e);
    RowForKey(master, m, addDays, w, starts[i]);
  }

  lemma {:induction false} StartRowsDistinct(
    master: Event, m: map<int, Event>, addDays: AddDays, w: Window, starts: seq<int>)
    requires Ascends(starts) && forall k :: k in m ==> RowKey(m[k]) == k
    ensures AscendingKeys(StartRows(master, m, addDays, w, starts))
  {
    hide RowFor, RowKey, UnixSecond;
    if starts != [] {
      var last := |starts| - 1;
      StartRowsDistinct(master, m, addDays, w, starts[..last]);
      var before := StartRows(master, m, addDays, w, starts[..last]);
      RowForKey(master, m, addDays, w, starts[last]);
      forall i | 0 <= i < |before| ensures RowKey(before[i]) < UnixSecond(starts[last]) {
        var k := YieldKey(master, m, addDays, w, starts[..last], before[i]);
        assert starts[..last][k] == starts[k];
      }
    }
  }

  /** Rows of the starts: exactly what the starts yield, each under its own key. */
  lemma StartRowsMembers(master: Event, m: map<int, Event>, addDays: AddDays, w: Window, starts: seq<int>)
    requires Ascends(starts) && forall k :: k in m ==> RowKey(m[k]) == k
    ensures var rows := StartRows(master, m, addDays, w, starts);
      && (forall e :: e in rows <==> Yields(master, m, addDays, w, starts, e))
      && (forall e :: e in rows ==> exists i :: 0 <= i < |starts| && UnixSecond(starts[i]) == RowKey(e))
      && AscendingKeys(rows) && DistinctKeys(rows)
  {
    hide Yields, StartRows, UnixSecond, RowKey;
    StartRowsDistinct(master, m, addDays, w, starts);
    var rows := StartRows(master, m, addDays, w, starts);
    forall e ensures e in rows <==> Yields(master, m, addDays, w, starts, e) {
      StartRowsMember(master, m, addDays, w, starts, e);
    }
    forall e | e in rows ensures exists i :: 0 <= i < |starts| && UnixSecond(starts[i]) == RowKey(e) {
      var i := YieldKey(master, m, addDays, w, starts, e);
    }
  }

  method RowsForStarts(master: Event, m: map<int, Event>, addDays: AddDays, w: Window, starts: seq<int>)
    returns (rows: seq<Event>, used: set<int>)
    ensures rows == StartRows(master, m, addDays, w, starts)
    ensures used == set i | 0 <= i < |starts| && UnixSecond(starts[i]) in m :: UnixSecond(starts[i])
  {
    hide UnixSecond, RowFor;
    rows, used := [], {};
    for i := 0 to |starts|
      invariant rows == StartRows(master, m, addDays, w, starts[..i])
      invariant used == set j | 0 <= j < i && UnixSecond(starts[j]) in m :: UnixSecond(starts[j])
    {
      assert starts[..i + 1][..i] == starts[..i];
      var key := UnixSecond(starts[i]);
      if key in m {
        used := used + {key};
      }
      var row := RowFor(master, m, addDays, w, starts[i]);
      if row.Some? {
        rows := rows + [row.value];
      }
    }
    assert starts[..|starts|] == starts;
  }

  lemma SomeMember(s: set<int>)
    ensures s == {} || exists x :: x in s
  {
    if !(exists x :: x in s) {
      assert s == {};
    }
  }

  /** Overrides whose slot was not among the starts, in the map's arbitrary order. */
  method AddUnusedOverrides(m: map<int, Event>, used: set<int>, w: Window, rows: seq<Event>) returns (out: seq<Event>)
    requires DistinctKeys(rows) && forall k :: k in m ==> RowKey(m[k]) == k && m[k].isOverride
    requires forall k :: k in m && k !in used ==> forall e :: e in rows ==> RowKey(e) != k
    ensures DistinctKeys(out)
    ensures rows <= out && forall i :: |rows| <= i < |out| ==> out[i].isOverride
    ensures forall e :: e in out <==>
              e in rows || exists k :: k in m && k !in used && m[k] == e && Overlaps(e.start, e.end, w)
  {
    out := rows;
    var pending: set<int> := m.Keys;
    while pending != {}
      invariant pending <= m.Keys && DistinctKeys(out)
      invariant rows <= out && forall i :: |rows| <= i < |out| ==> out[i].isOverride
      invariant forall e :: e in out <==>
                  e in rows || exists k :: k in m && k !in pending && k !in used && m[k] == e && Overlaps(e.start, e.end, w)
      invariant forall k :: k in pending && k !in used ==> forall e :: e in out ==> RowKey(e) != k
      decreases |pending|
    {
      SomeMember(pending);
      var key :| key in pending;
      pending := pending - {key};
      if key !in used && Overlaps(m[key].start, m[key].end, w) {
        out := out + [m[key]];
      }
    }
  }

  /** Rows gathered from the starts and the unused overrides are exactly the specified ones. */
  lemma RowsAreExact(
    master: Event, overrides: seq<Event>, rule: Rule, addDays: AddDays, w: Window,
    starts: seq<int>, complete: bool, used: set<int>, rows: seq<Event>, out: seq<Event>)
    requires var m := OverrideMap(overrides);
      && (forall x :: x in starts ==> Reached(master, rule, addDays, w, x))
      && (complete ==> forall x :: Reached(master, rule, addDays, w, x) ==> x in starts)
      && (forall e :: e in rows <==> Yields(master, m, addDays, w, starts, e))
      && used == (set i | 0 <= i < |starts| && UnixSecond(starts[i]) in m :: UnixSecond(starts[i]))
      && (forall e :: e in out <==>
            e in rows || exists k :: k in m && k !in used && m[k] == e && Overlaps(e.start, e.end, w))
    ensures forall e :: e in out ==> IsShownRow(master, overrides, rule, addDays, w, e)
    ensures complete ==> forall e :: IsShownRow(master, overrides, rule, addDays, w, e) ==> e in out
  {
    hide VisibleStart, OverrideMap, OccurrenceEnd, UnixSecond, Overlaps, LowerBound;
    var m := OverrideMap(overrides);
    forall e | e in out ensures IsShownRow(master, overrides, rule, addDays, w, e) {
      if e in rows {
        var i :| 0 <= i < |starts| && RowFor(master, m, addDays, w, starts[i]) == Some(e);
        assert starts[i] in starts;
      }
    }
    if complete {
      forall e | IsShownRow(master, overrides, rule, addDays, w, e) ensures e in out {
        if IsOverrideRow(m, w, e) {
          var k :| k in m && m[k] == e && Overlaps(e.start, e.end, w);
          if k in used {
            var i :| 0 <= i < |starts| && UnixSecond(starts[i]) == k;
            assert RowFor(master, m, addDays, w, starts[i]) == Some(e);
          }
        } else {
          assert Reached(master, rule, addDays, w, e.recurrenceId);
          var i :| 0 <= i < |starts| && starts[i] == e.recurrenceId;
          assert RowFor(master, m, addDays, w, starts[i]) == Some(e);
        }
      }
    }
  }

  /** The order survives the cut at the limit. */
  lemma OrderedRows(rows: seq<Event>, out: seq<Event>, limit: nat)
    requires AscendingKeys(rows) && rows <= out && forall i :: |rows| <= i < |out| ==> out[i].isOverride
    ensures SlotsFirst(out) && (|out| > limit ==> SlotsFirst(out[..limit]))
  {
    hide RowKey;
    assert out[..|rows|] == rows;
    if |out| > limit {
      var cut := out[..limit];
      var k := if |rows| < limit then |rows| else limit;
      assert cut[..k] == rows[..k];
    }
  }

  lemma DistinctRows(rows: seq<Event>)
    requires DistinctKeys(rows)
    ensures Distinct(rows)
  {
    hide RowKey;
  }

  function Capped(requested: int): (limit: nat)
    ensures 1 <= requested <= 2000 ==> limit == requested
    ensures requested < 1 || 2000 < requested ==> limit == 2000
  {
    if requested <= 0 || requested > MAX_OCCURRENCES then MAX_OCCURRENCES else requested
  }

  /** The expansion after the rule has been parsed and found safe; `rule` is its iterator. */
  method ExpandOccurrences(
    master: Event, overrides: seq<Event>, rule: Rule, addDays: AddDays, w: Window, requested: int,
    canceled: nat -> bool, series: int, remaining: int)
    returns (result: Outcome<Rows>, remaining': int)
    requires WellBehaved(rule)
    ensures result.Done? && master.recurrence == "" ==>
              result.value == Rows(if Overlaps(master.start, master.end, w) then [master] else [], false)
    ensures result.Done? && master.recurrence != "" ==>
              var Rows(events, truncated) := result.value;
              && (forall e :: e in events ==> IsShownRow(master, overrides, rule, addDays, w, e))
              && (!truncated ==> forall e :: IsShownRow(master, overrides, rule, addDays, w, e) ==> e in events)
              && Distinct(events) && SlotsFirst(events)
              && |events| <= Capped(requested)
              && (truncated ==> || MoreStarts(master, rule, addDays, w, Capped(requested))
                                || MoreRows(master, overrides, rule, addDays, w, Capped(requested)))
    ensures remaining' <= remaining && (remaining >= 0 && series >= 0 ==> remaining' >= 0)
    ensures remaining - remaining' <= RecurrenceRules.MAX_EXPANSION_WORK
    ensures result == Failed(TooManyOverrides) <==> |overrides| > MAX_OVERRIDES
    ensures result == Failed(WorkExceeded) ==>
              remaining' <= 0 || remaining - remaining' >= series || remaining - remaining' == RecurrenceRules.MAX_EXPANSION_WORK
    ensures result == Failed(Canceled) ==> exists i: nat :: canceled(i)
  {
    hide VisibleStart, Reached, OccurrenceEnd, UnixSecond, IsShownRow, RowFor, Yields, StartRows, SlotsFirst, AscendingKeys;
    hide MoreStarts;
    remaining' := remaining;
    var limit := Capped(requested);
    if |overrides| > MAX_OVERRIDES {
      return Failed(TooManyOverrides), remaining;
    }
    if master.recurrence == "" {
      return Done(Rows(if Overlaps(master.start, master.end, w) then [master] else [], false)), remaining;
    }
    var collected, series';
    collected, series', remaining' := CollectStarts(master, rule, addDays, w, limit, canceled, series, remaining);
    if collected.Failed? {
      return Failed(collected.error), remaining';
    }
    var Starts(starts, truncated) := collected.value;
    var m := MapOverrides(overrides);
    var rows, used := RowsForStarts(master, m, addDays, w, starts);
    StartRowsMembers(master, m, addDays, w, starts);
    UnusedKeys(m, starts, used, rows);
    var out := AddUnusedOverrides(m, used, w, rows);
    RowsAreExact(master, overrides, rule, addDays, w, starts, !truncated, used, rows, out);
    DistinctRows(out);
    OrderedRows(rows, out, limit);
    if |out| > limit {
      assert forall e :: e in out[..limit] ==> e in out;
      assert AllRows(master, overrides, rule, addDays, w, out);
      out, truncated := out[..limit], true;
    }
    result := Done(Rows(out, truncated));
  }

  /** Every specified row is shown, in a zone of bounded drift, when the bound widens enough. */
  lemma ShownIsComplete(
    master: Event, overrides: seq<Event>, rule: Rule, addDays: AddDays, w: Window, e: Event)
    requires WidensEnough(master) && DriftsAtMostADay(addDays)
    ensures IsShownRow(master, overrides, rule, addDays, w, e) <==> IsRow(master, overrides, rule, addDays, w, e)
  {
    hide OverrideMap, LowerBound, OccurrenceEnd, Overlaps, WidensEnough, DriftsAtMostADay, UnixSecond;
    if VisibleStart(master, rule, addDays, w, e.recurrenceId) {
      WideBound(master, addDays, w, e.recurrenceId);
    }
  }

  lemma UnusedKeys(m: map<int, Event>, starts: seq<int>, used: set<int>, rows: seq<Event>)
    requires used == set i | 0 <= i < |starts| && UnixSecond(starts[i]) in m :: UnixSecond(starts[i])
    requires forall e :: e in rows ==> exists i :: 0 <= i < |starts| && UnixSecond(starts[i]) == RowKey(e)
    ensures forall k :: k in m && k !in used ==> forall e :: e in rows ==> RowKey(e) != k
  {
    hide RowKey, UnixSecond;
  }
}
