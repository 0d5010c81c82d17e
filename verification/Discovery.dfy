/**
 Single-flight discovery: concurrent callers share one attempt, and its result is
 published once. The calendar and the contacts client hold the state in different
 fields; both are proved to take the same atomic steps.
 */
module Discovery {
  import opened Wrappers

  /**
   The shared state: the published result, the wait channel of the attempt in flight,
   the channels allocated so far and those already closed.
   */
  datatype Shared = Shared(published: Option<string>, running: Option<nat>, channels: nat, closed: set<nat>)

  datatype Entered = Ready | WaitOn(channel: nat) | Run(channel: nat)

  function Enter(s: Shared): (Shared, Entered) {
    if s.published.Some? then (s, Ready)
    else if s.running.Some? then (s, WaitOn(s.running.value))
    else (s.(running := Some(s.channels), channels := s.channels + 1), Run(s.channels))
  }

  /** The attempt on `channel` ends; `None` is a failed attempt. */
  function Finish(s: Shared, channel: nat, result: Option<string>): Shared {
    s.(published := if result.Some? then result else s.published, running := None, closed := s.closed + {channel})
  }

  class CalendarClient {
    var discovered: bool
    var discovering: bool
    var discoverWait: nat
    var home: string
    var channels: nat
    var closed: set<nat>

    ghost function View(): Shared
      reads this
    {
      Shared(if discovered then Some(home) else None, if discovering then Some(discoverWait) else None, channels, closed)
    }

    constructor ()
      ensures View() == Shared(None, None, 0, {})
    {
      discovered, discovering, discoverWait, home, channels, closed := false, false, 0, "", 0, {};
    }

    method EnterLocked() returns (r: Entered)
      modifies this
      ensures (View(), r) == Enter(old(View()))
    {
      if discovered {
        return Ready;
      }
      if discovering {
        return WaitOn(discoverWait);
      }
      discovering, discoverWait, channels := true, channels, channels + 1;
      r := Run(discoverWait);
    }

    method FinishLocked(wait: nat, result: Option<string>)
      modifies this
      ensures View() == Finish(old(View()), wait, result)
    {
      if result.Some? {
        home, discovered := result.value, true;
      }
      discovering, closed := false, closed + {wait};
    }
  }

  class ContactsClient {
    var state: Option<string>
    var discovering: Option<nat>
    var channels: nat
    var closed: set<nat>

    ghost function View(): Shared
      reads this
    {
      Shared(state, discovering, channels, closed)
    }

    constructor ()
      ensures View() == Shared(None, None, 0, {})
    {
      state, discovering, channels, closed := None, None, 0, {};
    }

    method EnterLocked() returns (r: Entered)
      modifies this
      ensures (View(), r) == Enter(old(View()))
    {
      if state.Some? {
        return Ready;
      }
      if discovering.Some? {
        return WaitOn(discovering.value);
      }
      discovering, channels := Some(channels), channels + 1;
      r := Run(discovering.value);
    }

    method FinishLocked(attempt: nat, result: Option<string>)
      modifies this
      ensures View() == Finish(old(View()), attempt, result)
    {
      if result.Some? {
        state := result;
      }
      discovering, closed := None, closed + {attempt};
    }
  }

  // --- Callers ------------------------------------------------------------------------------------

  /** A caller about to lock, blocked on a channel, running discovery, or returned. */
  datatype Phase = Looping | Waiting(channel: nat) | Running(channel: nat) | Returned(ok: bool)

  datatype System = System(shared: Shared, phases: map<nat, Phase>)

  /** `Panic` is a running attempt that unwinds and is recovered above: nothing frees the flight. */
  datatype Action =
    | Arrive(caller: nat)
    | Lock(caller: nat)
    | Wake(caller: nat)
    | Cancel(caller: nat)
    | End(caller: nat, result: Option<string>)
    | Panic(caller: nat)

  ghost predicate Enabled(s: System, a: Action) {
    match a
    case Arrive(c) => c !in s.phases
    case Lock(c) => c in s.phases && s.phases[c] == Looping
    case Wake(c) => c in s.phases && s.phases[c].Waiting? && s.phases[c].channel in s.shared.closed
    case Cancel(c) => c in s.phases && s.phases[c].Waiting?
    case End(c, _) => c in s.phases && s.phases[c].Running?
    case Panic(c) => c in s.phases && s.phases[c].Running?
  }

  ghost function Step(s: System, a: Action): System
    requires Enabled(s, a)
  {
    match a
    case Arrive(c) => s.(phases := s.phases[c := Looping])
    case Lock(c) =>
      var (shared, r) := Enter(s.shared);
      var phase := (match r case Ready => Returned(true) case WaitOn(ch) => Waiting(ch) case Run(ch) => Running(ch));
      System(shared, s.phases[c := phase])
    case Wake(c) => s.(phases := s.phases[c := Looping])
    case Cancel(c) => s.(phases := s.phases[c := Returned(false)])
    case End(c, result) =>
      System(Finish(s.shared, s.phases[c].channel, result), s.phases[c := Returned(result.Some?)])
    case Panic(c) => s.(phases := s.phases[c := Returned(false)])
  }

  ghost predicate Initial(s: System) {
    s == System(Shared(None, None, 0, {}), map[])
  }

  ghost predicate PhaseOk(s: System, c: nat)
    requires c in s.phases
  {
    match s.phases[c]
    case Looping => true
    case Waiting(ch) => ch in s.shared.closed || s.shared.running == Some(ch)
    case Running(ch) => s.shared.running == Some(ch)
    case Returned(ok) => ok ==> s.shared.published.Some?
  }

  ghost predicate Inv(s: System) {
    && (forall c :: c in s.phases ==> PhaseOk(s, c))
    && (s.shared.running.Some? ==>
          && s.shared.published.None? && s.shared.running.value < s.shared.channels
          && s.shared.running.value !in s.shared.closed)
    && (forall c, d :: c in s.phases && d in s.phases && s.phases[c].Running? && s.phases[d].Running? ==> c == d)
    && (forall ch :: ch in s.shared.closed ==> ch < s.shared.channels)
  }

  /** The attempt in flight has a caller running it. */
  ghost predicate Attended(s: System) {
    s.shared.running.Some? ==> exists c :: c in s.phases && s.phases[c] == Running(s.shared.running.value)
  }

  /** Every step keeps the invariant, and a published result never changes. */
  lemma StepKeepsInv(s: System, a: Action)
    requires Inv(s) && Enabled(s, a)
    ensures Inv(Step(s, a))
    ensures s.shared.published.Some? ==> Step(s, a).shared.published == s.shared.published
  {
    var t := Step(s, a);
    forall c | c in t.phases ensures PhaseOk(t, c) {
      if c in s.phases { assert PhaseOk(s, c); }
    }
    if a.End? {
      assert PhaseOk(s, a.caller);
    }
  }

  /** Only a panic leaves an attempt unattended, and nothing repairs it. */
  lemma StepAttends(s: System, a: Action)
    requires Inv(s) && Enabled(s, a)
    ensures Attended(Step(s, a)) <==> Attended(s) && !a.Panic?
  {
    var t := Step(s, a);
    if a.End? || a.Panic? {
      assert PhaseOk(s, a.caller);
    } else if s.shared.running.Some? {
      forall c | c in s.phases && s.phases[c].Running? ensures c in t.phases && t.phases[c] == s.phases[c] {
        assert c != a.caller;
      }
    } else if t.shared.running.Some? {
      assert t.phases[a.caller] == Running(t.shared.running.value);
    }
  }

  // --- Runs ---------------------------------------------------------------------------------------

  ghost predicate StepAt(states: seq<System>, actions: seq<Action>, i: nat)
    requires i < |actions| < |states|
  {
    Enabled(states[i], actions[i]) && states[i + 1] == Step(states[i], actions[i])
  }

  /** Any interleaving of any number of callers. */
  ghost predicate IsRun(states: seq<System>, actions: seq<Action>) {
    && |states| == |actions| + 1 && Initial(states[0])
    && forall i :: 0 <= i < |actions| ==> StepAt(states, actions, i)
  }

  lemma {:induction false} RunInv(states: seq<System>, actions: seq<Action>, n: nat)
    requires IsRun(states, actions) && n < |states|
    ensures Inv(states[n])
  {
    if n > 0 {
      RunInv(states, actions, n - 1);
      assert StepAt(states, actions, n - 1);
      hide Inv, Step, Enabled;
      StepKeepsInv(states[n - 1], actions[n - 1]);
    }
  }

  /** In every reachable state at most one caller runs discovery, and success is reported only once published. */
  lemma SingleFlight(states: seq<System>, actions: seq<Action>, n: nat, c: nat, d: nat)
    requires IsRun(states, actions) && n < |states| && c in states[n].phases && d in states[n].phases
    ensures states[n].phases[c].Running? && states[n].phases[d].Running? ==> c == d
    ensures states[n].phases[c] == Returned(true) ==> states[n].shared.published.Some?
  {
    RunInv(states, actions, n);
    assert PhaseOk(states[n], c);
  }

  /** Once published, a result is what every later state shows. */
  lemma {:induction false} PublishedIsStable(states: seq<System>, actions: seq<Action>, m: nat, n: nat)
    requires IsRun(states, actions) && m <= n < |states| && states[m].shared.published.Some?
    ensures states[n].shared.published == states[m].shared.published
  {
    if m < n {
      PublishedIsStable(states, actions, m, n - 1);
      RunInv(states, actions, n - 1);
      assert StepAt(states, actions, n - 1);
      hide Inv, Step, Enabled;
      StepKeepsInv(states[n - 1], actions[n - 1]);
    }
  }

  /** Whatever is published is the result of an attempt that ended with it. */
  lemma {:induction false} PublishedHasOwner(states: seq<System>, actions: seq<Action>, n: nat) returns (m: nat)
    requires IsRun(states, actions) && n < |states| && states[n].shared.published.Some?
    ensures m < n && actions[m].End? && actions[m].result == states[n].shared.published
  {
    assert n > 0;
    assert StepAt(states, actions, n - 1);
    RunInv(states, actions, n - 1);
    StepPublishes(states[n - 1], actions[n - 1]);
    if actions[n - 1].End? && actions[n - 1].result.Some? {
      m := n - 1;
    } else {
      m := PublishedHasOwner(states, actions, n - 1);
    }
  }

  /** An attempt that ends frees the flight and publishes its own result, if it has one; nothing else publishes. */
  lemma StepPublishes(s: System, a: Action)
    requires Inv(s) && Enabled(s, a)
    ensures var t := Step(s, a);
            t.shared.published == if a.End? && a.result.Some? then a.result else s.shared.published
    ensures a.End? ==> Step(s, a).shared.running.None? && Step(s, a).phases[a.caller] == Returned(a.result.Some?)
  {
  }

  /** A caller that takes the lock returns, waits for the flight, or starts one on a new channel. */
  lemma LockAnswers(s: System, c: nat)
    requires Inv(s) && Enabled(s, Lock(c))
    ensures Step(s, Lock(c)).phases[c] ==
            if s.shared.published.Some? then Returned(true)
            else if s.shared.running.Some? then Waiting(s.shared.running.value)
            else Running(s.shared.channels)
  {
  }

  ghost predicate NoPanic(actions: seq<Action>, n: nat)
    requires n <= |actions|
  {
    forall i :: 0 <= i < n ==> !actions[i].Panic?
  }

  /** An attempt in flight is attended exactly as long as no attempt has panicked. */
  lemma {:induction false} AttendedExact(states: seq<System>, actions: seq<Action>, n: nat)
    requires IsRun(states, actions) && n < |states|
    ensures Attended(states[n]) <==> NoPanic(actions, n)
  {
    if n > 0 {
      AttendedExact(states, actions, n - 1);
      RunInv(states, actions, n - 1);
      assert StepAt(states, actions, n - 1);
      hide Inv, Step, Enabled, Attended;
      StepAttends(states[n - 1], actions[n - 1]);
    }
  }

  /** The blocked caller can wake now, or a running caller is bound to close its channel. */
  ghost predicate CanStillWake(s: System, c: nat)
    requires c in s.phases && s.phases[c].Waiting?
  {
    || Enabled(s, Wake(c))
    || exists r :: r in s.phases && s.phases[r] == Running(s.phases[c].channel)
  }

  /** No wake-up is lost as long as no attempt panics. */
  lemma WaitersAreOwned(states: seq<System>, actions: seq<Action>, n: nat, c: nat)
    requires IsRun(states, actions) && n < |states| && c in states[n].phases && states[n].phases[c].Waiting?
    ensures NoPanic(actions, n) ==> CanStillWake(states[n], c)
    ensures CanStillWake(states[n], c) <==> states[n].phases[c].channel in states[n].shared.closed || NoPanic(actions, n)
  {
    RunInv(states, actions, n);
    AttendedExact(states, actions, n);
    assert PhaseOk(states[n], c);
    forall r | r in states[n].phases && states[n].phases[r] == Running(states[n].phases[c].channel)
      ensures states[n].shared.running == Some(states[n].phases[c].channel)
    {
      assert PhaseOk(states[n], r);
    }
  }

  /** After a panic the flight is never freed: no later state publishes, and no caller runs again. */
  lemma {:induction false} PanicStrands(states: seq<System>, actions: seq<Action>, m: nat, n: nat)
    requires IsRun(states, actions) && m < n < |states| && actions[m].Panic?
    ensures states[n].shared == states[m].shared && states[n].shared.running.Some? && states[n].shared.published.None?
    ensures forall c :: c in states[n].phases ==> !states[n].phases[c].Running?
    decreases n
  {
    RunInv(states, actions, n - 1);
    assert StepAt(states, actions, n - 1);
    if n - 1 > m {
      PanicStrands(states, actions, m, n - 1);
    } else {
      assert PhaseOk(states[m], actions[m].caller);
    }
  }

  /** A run in which the second caller waits on an attempt that panicked. */
  lemma PanicLosesWakeUp() returns (states: seq<System>, actions: seq<Action>)
    ensures IsRun(states, actions) && |states| > 0
    ensures var last := states[|states| - 1]; 1 in last.phases && last.phases[1].Waiting? && !CanStillWake(last, 1)
  {
    actions := [Arrive(0), Lock(0), Arrive(1), Lock(1), Panic(0)];
    var idle, flying := Shared(None, None, 0, {}), Shared(None, Some(0), 1, {});
    states := [
      System(idle, map[]),
      System(idle, map[0 := Looping]),
      System(flying, map[0 := Running(0)]),
      System(flying, map[0 := Running(0), 1 := Looping]),
      System(flying, map[0 := Running(0), 1 := Waiting(0)]),
      System(flying, map[0 := Returned(false), 1 := Waiting(0)])];
    assert StepAt(states, actions, 0) && StepAt(states, actions, 1) && StepAt(states, actions, 2);
    assert StepAt(states, actions, 3) && StepAt(states, actions, 4);
  }

  /** Ending the attempt enables every caller blocked on it. */
  lemma EndWakesWaiters(s: System, r: nat, result: Option<string>, c: nat)
    requires Inv(s) && Enabled(s, End(r, result))
    requires c in s.phases && s.phases[c] == Waiting(s.phases[r].channel)
    ensures Enabled(Step(s, End(r, result)), Wake(c))
  {
    assert PhaseOk(s, r);
  }
}
