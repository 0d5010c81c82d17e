/**
 Keyed mail sends: a claim is dispatched by its owner only, kept for the life of the
 process, and answers every later caller of the same key.
 */
module SendIdempotency {
  import opened Wrappers

  const MAX_ENTRIES := 128

  /** `answer` is the owner's result once `done` is closed; `closes` counts the closings. */
  datatype Claim = Claim(key: string, fingerprint: string, answer: Option<string>, closes: nat)

  datatype Cache = Cache(entries: map<string, nat>, claims: seq<Claim>)

  datatype Claimed = Owner(id: nat) | Wait(id: nat) | Mismatch | Full

  ghost predicate InRange(c: Cache) {
    forall k :: k in c.entries ==> c.entries[k] < |c.claims|
  }

  /** One critical section of a claim. */
  ghost function TakeClaim(c: Cache, key: string, fingerprint: string): (Cache, Claimed)
    requires InRange(c)
  {
    if key in c.entries then
      (c, if c.claims[c.entries[key]].fingerprint != fingerprint then Mismatch else Wait(c.entries[key]))
    else if |c.entries| >= MAX_ENTRIES then (c, Full)
    else
      var id := |c.claims|;
      (Cache(c.entries[key := id], c.claims + [Claim(key, fingerprint, None, 0)]), Owner(id))
  }

  function Answered(claim: Claim, answer: string): Claim {
    claim.(answer := Some(answer), closes := claim.closes + 1)
  }

  class SendCache {
    var entries: map<string, nat>
    var claims: seq<Claim>

    ghost function View(): Cache
      reads this
    {
      Cache(entries, claims)
    }

    constructor ()
      ensures View() == Cache(map[], [])
    {
      entries, claims := map[], [];
    }

    method ClaimLocked(key: string, fingerprint: string) returns (r: Claimed)
      requires InRange(View())
      modifies this
      ensures (View(), r) == TakeClaim(old(View()), key, fingerprint)
    {
      if key in entries {
        if claims[entries[key]].fingerprint != fingerprint {
          return Mismatch;
        }
        return Wait(entries[key]);
      }
      if |entries| >= MAX_ENTRIES {
        return Full;
      }
      var id := |claims|;
      claims := claims + [Claim(key, fingerprint, None, 0)];
      entries := entries[key := id];
      r := Owner(id);
    }

    method CompleteLocked(id: nat, answer: string)
      requires id < |claims|
      modifies this
      ensures View() == old(View()).(claims := old(claims)[id := Answered(old(claims)[id], answer)])
    {
      claims := claims[id := Answered(claims[id], answer)];
    }
  }

  // --- The transition system -------------------------------------------------------------------

  datatype Waiter = Waiter(id: nat, key: string, fingerprint: string)

  datatype Delivery = Delivery(id: nat, key: string, fingerprint: string, answer: string)

  /** `owners` are claims whose send is still running; `dispatched` lists the keys sent, in order. */
  datatype System = System(
    cache: Cache, owners: set<nat>, waiters: map<nat, Waiter>, dispatched: seq<string>, log: seq<Delivery>)

  datatype Action =
    | ClaimAction(caller: nat, key: string, fingerprint: string)
    | FinishAction(id: nat, answer: string)
    | WakeAction(caller: nat)
    | CancelAction(caller: nat)

  ghost predicate Enabled(s: System, a: Action) {
    match a
    case ClaimAction(caller, _, _) => caller !in s.waiters
    case FinishAction(id, _) => id in s.owners && id < |s.cache.claims|
    case WakeAction(caller) =>
      && caller in s.waiters && s.waiters[caller].id < |s.cache.claims|
      && s.cache.claims[s.waiters[caller].id].answer.Some?
    case CancelAction(caller) => caller in s.waiters
  }

  ghost function Step(s: System, a: Action): System
    requires InRange(s.cache) && Enabled(s, a)
  {
    match a
    case ClaimAction(caller, key, fingerprint) =>
      var (cache, r) := TakeClaim(s.cache, key, fingerprint);
      var t := s.(cache := cache);
      (match r
       case Owner(id) => t.(owners := t.owners + {id}, dispatched := t.dispatched + [key])
       case Wait(id) => t.(waiters := t.waiters[caller := Waiter(id, key, fingerprint)])
       case _ => t)
    case FinishAction(id, answer) =>
      s.(cache := s.cache.(claims := s.cache.claims[id := Answered(s.cache.claims[id], answer)]), owners := s.owners - {id})
    case WakeAction(caller) =>
      var w := s.waiters[caller];
      s.(waiters := s.waiters - {caller},
         log := s.log + [Delivery(w.id, w.key, w.fingerprint, s.cache.claims[w.id].answer.value)])
    case CancelAction(caller) => s.(waiters := s.waiters - {caller})
  }

  ghost predicate Initial(s: System) {
    s == System(Cache(map[], []), {}, map[], [], [])
  }

  /** A key leads to its one claim, and every claim is the one its key leads to. */
  ghost predicate Indexed(c: Cache) {
    && (forall k :: k in c.entries ==> c.entries[k] < |c.claims| && c.claims[c.entries[k]].key == k)
    && (forall i :: 0 <= i < |c.claims| ==> c.claims[i].key in c.entries && c.entries[c.claims[i].key] == i)
    && |c.entries| == |c.claims| <= MAX_ENTRIES
  }

  ghost predicate OwnersOk(claims: seq<Claim>, owners: set<nat>) {
    && (forall i :: i in owners <==> 0 <= i < |claims| && claims[i].answer.None?)
    && (forall i :: 0 <= i < |claims| ==> claims[i].closes == if claims[i].answer.None? then 0 else 1)
  }

  /** One dispatch per claim, in claim order. */
  ghost predicate DispatchedOk(claims: seq<Claim>, dispatched: seq<string>) {
    |dispatched| == |claims| && forall i :: 0 <= i < |claims| ==> dispatched[i] == claims[i].key
  }

  ghost predicate WaitersOk(claims: seq<Claim>, owners: set<nat>, waiters: map<nat, Waiter>) {
    forall c :: c in waiters ==>
      && waiters[c].id < |claims| && claims[waiters[c].id].key == waiters[c].key
      && claims[waiters[c].id].fingerprint == waiters[c].fingerprint
      && (waiters[c].id in owners || claims[waiters[c].id].answer.Some?)
  }

  ghost predicate DeliveryOk(claims: seq<Claim>, d: Delivery) {
    && d.id < |claims| && claims[d.id].key == d.key && claims[d.id].fingerprint == d.fingerprint
    && claims[d.id].answer == Some(d.answer)
  }

  ghost predicate Inv(s: System) {
    && Indexed(s.cache) && OwnersOk(s.cache.claims, s.owners) && DispatchedOk(s.cache.claims, s.dispatched)
    && WaitersOk(s.cache.claims, s.owners, s.waiters)
    && forall i :: 0 <= i < |s.log| ==> DeliveryOk(s.cache.claims, s.log[i])
  }

  lemma OwnKeepsInv(s: System, key: string, fingerprint: string)
    requires Inv(s) && key !in s.cache.entries && |s.cache.entries| < MAX_ENTRIES
    ensures var id := |s.cache.claims|;
            Inv(s.(cache := Cache(s.cache.entries[key := id], s.cache.claims + [Claim(key, fingerprint, None, 0)]),
                   owners := s.owners + {id}, dispatched := s.dispatched + [key]))
  {
    var id := |s.cache.claims|;
    var claims := s.cache.claims + [Claim(key, fingerprint, None, 0)];
    assert forall i :: 0 <= i < id ==> claims[i] == s.cache.claims[i];
    assert |s.cache.entries[key := id]| == |s.cache.entries| + 1;
  }

  lemma FinishKeepsInv(s: System, id: nat, answer: string)
    requires Inv(s) && id in s.owners && id < |s.cache.claims|
    ensures Inv(s.(cache := s.cache.(claims := s.cache.claims[id := Answered(s.cache.claims[id], answer)]), owners := s.owners - {id}))
  {
    var claims := s.cache.claims[id := Answered(s.cache.claims[id], answer)];
    assert forall i :: 0 <= i < |claims| && i != id ==> claims[i] == s.cache.claims[i];
    assert forall i :: 0 <= i < |s.log| ==> DeliveryOk(s.cache.claims, s.log[i]) && s.log[i].id != id;
  }

  /** Every step of every caller keeps the invariant. */
  lemma StepKeepsInv(s: System, a: Action)
    requires Inv(s) && InRange(s.cache) && Enabled(s, a)
    ensures Inv(Step(s, a))
  {
    if a.ClaimAction? {
      if a.key !in s.cache.entries && |s.cache.entries| < MAX_ENTRIES {
        OwnKeepsInv(s, a.key, a.fingerprint);
      }
    } else if a.FinishAction? {
      FinishKeepsInv(s, a.id, a.answer);
    }
  }

  // --- Runs ---------------------------------------------------------------------------------------

  ghost predicate StepAt(states: seq<System>, actions: seq<Action>, i: nat)
    requires i < |actions| < |states|
  {
    InRange(states[i].cache) && Enabled(states[i], actions[i]) && states[i + 1] == Step(states[i], actions[i])
  }

  ghost predicate IsRun(states: seq<System>, actions: seq<Action>) {
    && |states| == |actions| + 1 && Initial(states[0])
    && forall i :: 0 <= i < |actions| ==> StepAt(states, actions, i)
  }

  lemma {:induction false} RunInv(states: seq<System>, actions: seq<Action>, n: nat)
    requires IsRun(states, actions) && n < |states|
    ensures Inv(states[n])
  {
    if n > 0 {
      RunInv(states, actions, n - 1);
      assert StepAt(states, actions, n - 1);
      hide Inv, Step, Enabled;
      StepKeepsInv(states[n - 1], actions[n - 1]);
    }
  }

  /**
   What a claim does, told by the keys dispatched so far: a fresh key is dispatched while there
   is room, a known one waits for the owner of the same content, and nothing else happens.
   */
  lemma ClaimAnswers(s: System, caller: nat, key: string, fingerprint: string)
    requires Inv(s) && InRange(s.cache) && caller !in s.waiters
    ensures var t := Step(s, ClaimAction(caller, key, fingerprint));
      && (key !in s.dispatched && |s.dispatched| < 128 ==>
            && t.dispatched == s.dispatched + [key] && t.owners == s.owners + {|s.dispatched|}
            && t.cache.claims == s.cache.claims + [Claim(key, fingerprint, None, 0)] && t.waiters == s.waiters)
      && (key !in s.dispatched && |s.dispatched| >= 128 ==> t == s)
      && (forall i :: 0 <= i < |s.dispatched| && s.dispatched[i] == key ==>
            t == if s.cache.claims[i].fingerprint == fingerprint
                 then s.(waiters := s.waiters[caller := Waiter(i, key, fingerprint)]) else s)
  {
    assert Indexed(s.cache) && DispatchedOk(s.cache.claims, s.dispatched);
    if key in s.cache.entries {
      assert s.dispatched[s.cache.entries[key]] == key;
    }
    assert forall i :: 0 <= i < |s.dispatched| ==> s.dispatched[i] == s.cache.claims[i].key;
  }

  /** A waiter whose owner has reported can wake, and gets that answer. */
  lemma AnsweredWaiterWakes(s: System, caller: nat, id: nat)
    requires Inv(s) && InRange(s.cache) && caller in s.waiters && s.waiters[caller].id == id
    requires id < |s.cache.claims| && id !in s.owners
    ensures Enabled(s, WakeAction(caller))
    ensures var t := Step(s, WakeAction(caller));
            s.cache.claims[id].answer.Some? && |t.log| == |s.log| + 1 && t.log[|s.log|].answer == s.cache.claims[id].answer.value
  {
  }

  /** A key is dispatched at most once in the life of the process, whatever the callers do. */
  lemma DispatchedOnce(states: seq<System>, actions: seq<Action>, n: nat, i: nat, j: nat)
    requires IsRun(states, actions) && n < |states| && i < j < |states[n].dispatched|
    ensures states[n].dispatched[i] != states[n].dispatched[j]
  {
    RunInv(states, actions, n);
  }

  /** Every duplicate caller gets exactly what the owner of the same key and fingerprint reported. */
  lemma DuplicatesGetOwnersAnswer(states: seq<System>, actions: seq<Action>, n: nat, k: nat) returns (m: nat)
    requires IsRun(states, actions) && n < |states| && k < |states[n].log|
    ensures var d, claims := states[n].log[k], states[n].cache.claims;
      && d.id < |claims| && claims[d.id].key == d.key && claims[d.id].fingerprint == d.fingerprint
      && m < n && actions[m] == FinishAction(d.id, d.answer)
  {
    RunInv(states, actions, n);
    assert DeliveryOk(states[n].cache.claims, states[n].log[k]);
    m := AnswerHasOwner(states, actions, n, states[n].log[k].id);
  }

  lemma {:induction false} AnswerHasOwner(states: seq<System>, actions: seq<Action>, n: nat, id: nat) returns (m: nat)
    requires IsRun(states, actions) && n < |states| && id < |states[n].cache.claims|
    requires states[n].cache.claims[id].answer.Some?
    ensures m < n && actions[m] == FinishAction(id, states[n].cache.claims[id].answer.value)
  {
    assert states[0].cache.claims == [];
    RunInv(states, actions, n - 1);
    assert StepAt(states, actions, n - 1);
    StepAnswers(states[n - 1], actions[n - 1], id);
    hide IsRun, Inv, Step, Enabled;
    if id < |states[n - 1].cache.claims| && states[n - 1].cache.claims[id].answer.Some? {
      m := AnswerHasOwner(states, actions, n - 1, id);
    } else {
      m := n - 1;
    }
  }

  lemma StepAnswers(s: System, a: Action, id: nat)
    requires Inv(s) && InRange(s.cache) && Enabled(s, a)
    requires id < |Step(s, a).cache.claims| && Step(s, a).cache.claims[id].answer.Some?
    ensures id < |s.cache.claims|
    ensures s.cache.claims[id].answer.Some? ==> Step(s, a).cache.claims[id].answer == s.cache.claims[id].answer
    ensures s.cache.claims[id].answer.None? ==> a == FinishAction(id, Step(s, a).cache.claims[id].answer.value)
  {
  }

  /** In every reachable state: bounded, each channel closed at most once, no waiter left without an owner or an answer. */
  lemma CacheIsSafe(states: seq<System>, actions: seq<Action>, n: nat)
    requires IsRun(states, actions) && n < |states|
    ensures var s := states[n];
      && |s.cache.entries| <= MAX_ENTRIES
      && (forall i :: 0 <= i < |s.cache.claims| ==> s.cache.claims[i].closes <= 1)
      && (forall c :: c in s.waiters ==>
            || s.waiters[c].id in s.owners
            || (s.waiters[c].id < |s.cache.claims| && s.cache.claims[s.waiters[c].id].answer.Some?))
  {
    RunInv(states, actions, n);
  }
}
