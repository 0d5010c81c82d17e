/**
 The process-local idempotency store of calendar updates. Each critical section is
 one atomic step of a transition system over any number of callers; the theorems
 hold in every state of every interleaving.
 */
module UpdateIdempotency {
  import opened Wrappers

  const TTL := 15 * 60 * 1_000_000_000
  const MAX_ENTRIES := 1024
  const MAX_PAYLOAD := 262144
  const MAX_KEY := 512

  datatype Outcome = Outcome(payload: string, isError: bool)

  /** The outcome stored when the owner's result cannot be recorded. */
  const UNKNOWN := Outcome("outcome_unknown", true)

  /**
   One claim. `expires` is `None` while pending and for outcomes kept for good;
   `grantedAt` and `closes` record the grant time and how often `done` was closed.
   */
  datatype Entry = Entry(
    key: string, hash: string, pending: bool, outcome: Outcome, expires: Option<int>, grantedAt: int, closes: nat)

  /** `entries` maps keys to allocated entries; waiters keep entries alive after a purge. */
  datatype Store = Store(entries: map<string, nat>, heap: seq<Entry>)

  datatype Began = Rejected | Conflict | Hit(outcome: Outcome) | Wait(id: nat) | Granted(id: nat)

  predicate Expired(e: Entry, now: int) {
    !e.pending && e.expires.Some? && e.expires.value <= now
  }

  ghost predicate InHeap(s: Store) {
    forall k :: k in s.entries ==> s.entries[k] < |s.heap|
  }

  ghost function Purged(s: Store, now: int): (r: Store)
    requires InHeap(s)
    ensures InHeap(r) && r.heap == s.heap
  {
    Store(map k | k in s.entries && !Expired(s.heap[s.entries[k]], now) :: s.entries[k], s.heap)
  }

  /** One critical section of a claim attempt. */
  ghost function Begin(s: Store, key: string, hash: string, now: int, canceled: bool): (Store, Began)
    requires InHeap(s)
  {
    if key == "" || hash == "" || |key| > MAX_KEY then (s, Rejected)
    else if canceled then (s, Rejected)
    else
      var p := Purged(s, now);
      if key in p.entries then
        var e := p.heap[p.entries[key]];
        if e.hash != hash then (p, Conflict)
        else if e.pending then (p, Wait(p.entries[key]))
        else (p, Hit(e.outcome))
      else if |p.entries| >= MAX_ENTRIES then (p, Rejected)
      else
        var id := |p.heap|;
        (Store(p.entries[key := id], p.heap + [Entry(key, hash, true, UNKNOWN, None, now, 0)]), Granted(id))
  }

  predicate Recordable(payload: Option<Outcome>) {
    payload.Some? && payload.value.payload != "" && |payload.value.payload| <= MAX_PAYLOAD
  }

  /** The entry after its owner reported. */
  function Completed(e: Entry, result: Option<Outcome>, retain: bool, now: int): Entry {
    e.(outcome := if Recordable(result) then result.value else UNKNOWN,
       pending := false,
       expires := if Recordable(result) && !retain then Some(now + TTL) else e.expires,
       closes := e.closes + 1)
  }

  /** The critical section of a completion. */
  ghost function Complete(s: Store, key: string, hash: string, result: Option<Outcome>, retain: bool, now: int): Store
    requires InHeap(s)
  {
    if key == "" || hash == "" || key !in s.entries then s
    else
      var id := s.entries[key];
      if !s.heap[id].pending || s.heap[id].hash != hash then s
      else s.(heap := s.heap[id := Completed(s.heap[id], result, retain, now)])
  }

  /** The store as the program holds it: the methods perform exactly the steps above. */
  class IdempotencyStore {
    var entries: map<string, nat>
    var heap: seq<Entry>

    ghost function View(): Store
      reads this
    {
      Store(entries, heap)
    }

    constructor ()
      ensures View() == Store(map[], [])
    {
      entries, heap := map[], [];
    }

    method PurgeLocked(now: int)
      requires InHeap(View())
      modifies this
      ensures View() == Purged(old(View()), now)
    {
      var pending := entries.Keys;
      var kept := entries;
      while pending != {}
        invariant View() == old(View())
        invariant pending <= entries.Keys
        invariant kept == map k | k in entries && (k in pending || !Expired(heap[entries[k]], now)) :: entries[k]
        decreases |pending|
      {
        var key :| key in pending;
        pending := pending - {key};
        if Expired(heap[entries[key]], now) {
          kept := kept - {key};
        }
      }
      entries := kept;
    }

    method BeginLocked(key: string, hash: string, now: int, canceled: bool) returns (r: Began)
      requires InHeap(View())
      modifies this
      ensures (View(), r) == Begin(old(View()), key, hash, now, canceled)
    {
      if key == "" || hash == "" || |key| > MAX_KEY || canceled {
        return Rejected;
      }
      PurgeLocked(now);
      if key in entries {
        var e := heap[entries[key]];
        if e.hash != hash {
          return Conflict;
        }
        if e.pending {
          return Wait(entries[key]);
        }
        return Hit(e.outcome);
      }
      if |entries| >= MAX_ENTRIES {
        return Rejected;
      }
      var id := |heap|;
      heap := heap + [Entry(key, hash, true, UNKNOWN, None, now, 0)];
      entries := entries[key := id];
      r := Granted(id);
    }

    method CompleteLocked(key: string, hash: string, result: Option<Outcome>, retain: bool, now: int)
      requires InHeap(View())
      modifies this
      ensures View() == Complete(old(View()), key, hash, result, retain, now)
    {
      if key == "" || hash == "" || key !in entries {
        return;
      }
      var id := entries[key];
      var e := heap[id];
      if !e.pending || e.hash != hash {
        return;
      }
      heap := heap[id := Completed(e, result, retain, now)];
    }
  }

  // --- The transition system ----------------------------------------------------------------

  /** A caller blocked on an entry's `done` channel. */
  datatype Waiter = Waiter(id: nat, key: string, hash: string)

  /** A prior outcome handed to a caller. */
  datatype Delivery = Delivery(id: nat, key: string, hash: string, outcome: Outcome)

  /** `claims` are the granted, not yet completed entries; each owner completes its own once. */
  datatype System = System(store: Store, clock: int, claims: set<nat>, waiters: map<nat, Waiter>, log: seq<Delivery>)

  datatype Action =
    | BeginAction(caller: nat, key: string, hash: string, now: int, canceled: bool)
    | CompleteAction(id: nat, result: Option<Outcome>, retain: bool, now: int)
    | WakeAction(caller: nat, canceled: bool)
    | AbandonAction(caller: nat)

  ghost predicate Enabled(s: System, a: Action) {
    match a
    case BeginAction(caller, _, _, now, _) => caller !in s.waiters && s.clock <= now
    case CompleteAction(id, _, _, now) => id in s.claims && s.clock <= now
    case WakeAction(caller, _) => caller in s.waiters && s.waiters[caller].id < |s.store.heap| && s.store.heap[s.waiters[caller].id].closes > 0
    case AbandonAction(caller) => caller in s.waiters
  }

  ghost function Step(s: System, a: Action): System
    requires InHeap(s.store) && Enabled(s, a) && forall id :: id in s.claims ==> id < |s.store.heap|
  {
    match a
    case BeginAction(caller, key, hash, now, canceled) =>
      var (store, r) := Begin(s.store, key, hash, now, canceled);
      var t := s.(store := store, clock := now);
      (match r
       case Granted(id) => t.(claims := t.claims + {id})
       case Wait(id) => t.(waiters := t.waiters[caller := Waiter(id, key, hash)])
       case Hit(outcome) => t.(log := t.log + [Delivery(store.entries[key], key, hash, outcome)])
       case _ => t)
    case CompleteAction(id, result, retain, now) =>
      var e := s.store.heap[id];
      s.(store := Complete(s.store, e.key, e.hash, result, retain, now), clock := now, claims := s.claims - {id})
    case WakeAction(caller, canceled) =>
      var w := s.waiters[caller];
      var e := s.store.heap[w.id];
      var t := s.(waiters := s.waiters - {caller});
      if canceled || e.pending then t else t.(log := t.log + [Delivery(w.id, w.key, w.hash, e.outcome)])
    case AbandonAction(caller) => s.(waiters := s.waiters - {caller})
  }

  ghost predicate Initial(s: System) {
    s.store == Store(map[], []) && s.claims == {} && s.waiters == map[] && s.log == []
  }

  // --- The invariant -----------------------------------------------------------------------------

  /** An entry's fields fit together. */
  ghost predicate EntryOk(e: Entry) {
    && e.key != "" && e.hash != ""
    && e.closes == (if e.pending then 0 else 1)
    && (e.pending ==> e.expires.None?)
  }

  ghost predicate Indexed(store: Store) {
    forall k :: k in store.entries ==> store.entries[k] < |store.heap| && store.heap[store.entries[k]].key == k
  }

  ghost predicate ClaimsOk(heap: seq<Entry>, claims: set<nat>) {
    forall id :: id in claims <==> 0 <= id < |heap| && heap[id].pending
  }

  /** An entry that has not expired is still the one its key leads to. */
  ghost predicate HeldOk(store: Store, clock: int) {
    forall id :: 0 <= id < |store.heap| && !Expired(store.heap[id], clock) ==>
      store.heap[id].key in store.entries && store.entries[store.heap[id].key] == id
  }

  /** Two grants of one key: the earlier completed with a known outcome, a full TTL before the later. */
  ghost predicate GrantsApart(heap: seq<Entry>) {
    forall i, j :: 0 <= i < j < |heap| && heap[i].key == heap[j].key ==> Expired(heap[i], heap[j].grantedAt)
  }

  ghost predicate GrantedBefore(heap: seq<Entry>, clock: int) {
    forall i :: 0 <= i < |heap| ==> heap[i].grantedAt <= clock
  }

  ghost predicate DeliveryOk(heap: seq<Entry>, d: Delivery) {
    && d.id < |heap| && !heap[d.id].pending
    && heap[d.id].key == d.key && heap[d.id].hash == d.hash && heap[d.id].outcome == d.outcome
  }

  ghost predicate WaiterOk(heap: seq<Entry>, claims: set<nat>, w: Waiter) {
    && w.id < |heap| && heap[w.id].key == w.key && heap[w.id].hash == w.hash
    && (w.id in claims || heap[w.id].closes == 1)
  }

  ghost predicate Inv(s: System) {
    && Indexed(s.store) && ClaimsOk(s.store.heap, s.claims) && HeldOk(s.store, s.clock) && GrantsApart(s.store.heap) && GrantedBefore(s.store.heap, s.clock)
    && (forall i :: 0 <= i < |s.store.heap| ==> EntryOk(s.store.heap[i]))
    && |s.store.entries| <= MAX_ENTRIES
    && (forall i :: 0 <= i < |s.log| ==> DeliveryOk(s.store.heap, s.log[i]))
    && (forall c :: c in s.waiters ==> WaiterOk(s.store.heap, s.claims, s.waiters[c]))
  }

  /** Entries only move forward: identity fixed, and a completed entry frozen. */
  ghost predicate Frozen(before: seq<Entry>, after: seq<Entry>) {
    && |before| <= |after|
    && forall i :: 0 <= i < |before| ==>
         && after[i].key == before[i].key && after[i].hash == before[i].hash
         && after[i].grantedAt == before[i].grantedAt
         && (!before[i].pending ==> after[i] == before[i])
  }

  // --- What a claim attempt answers -------------------------------------------------------------

  /** The key's claim still stands at `now`: it is pending, kept for good, or not yet expired. */
  ghost predicate Stands(s: Store, key: string, now: int)
    requires InHeap(s)
  {
    && key in s.entries
    && (var e := s.heap[s.entries[key]]; e.pending || e.expires.None? || e.expires.value > now)
  }

  ghost function Standing(s: Store, now: int): set<string>
    requires InHeap(s)
  {
    set key | key in s.entries && Stands(s, key, now)
  }

  /** A well-formed attempt waits, conflicts or hits on a claim that stands; otherwise it is granted while there is room. */
  lemma BeginAnswers(s: Store, key: string, hash: string, now: int)
    requires InHeap(s) && key != "" && hash != "" && |key| <= 512
    ensures var (t, r) := Begin(s, key, hash, now, false);
      && (Stands(s, key, now) ==>
            var id := s.entries[key];
            var e := s.heap[id];
            && t.heap == s.heap && t.entries.Keys == Standing(s, now)
            && (e.hash != hash ==> r == Conflict)
            && (e.hash == hash && e.pending ==> r == Wait(id))
            && (e.hash == hash && !e.pending ==> r == Hit(e.outcome)))
      && (!Stands(s, key, now) && |Standing(s, now)| >= 1024 ==> r == Rejected && t.heap == s.heap)
      && (!Stands(s, key, now) && |Standing(s, now)| < 1024 ==>
            && r == Granted(|s.heap|) && t.entries.Keys == Standing(s, now) + {key} && t.entries[key] == |s.heap|
            && |t.heap| == |s.heap| + 1 && t.heap[..|s.heap|] == s.heap
            && t.heap[|s.heap|].key == key && t.heap[|s.heap|].hash == hash && t.heap[|s.heap|].pending
            && t.heap[|s.heap|].grantedAt == now && t.heap[|s.heap|].expires.None?)
  {
    PurgeStanding(s, now);
    hide Purged, Stands, Standing;
  }

  lemma PurgeStanding(s: Store, now: int)
    requires InHeap(s)
    ensures var p := Purged(s, now);
      && p.entries.Keys == Standing(s, now) && |p.entries| == |Standing(s, now)|
      && (forall key :: key in p.entries <==> Stands(s, key, now))
      && (forall key :: key in p.entries ==> key in s.entries && p.entries[key] == s.entries[key])
  {
    assert Purged(s, now).entries.Keys == Standing(s, now);
    assert |Purged(s, now).entries| == |Purged(s, now).entries.Keys|;
  }

  /** A malformed or cancelled attempt changes nothing and is rejected. */
  lemma BeginRejects(s: Store, key: string, hash: string, now: int, canceled: bool)
    requires InHeap(s) && (key == "" || hash == "" || |key| > 512 || canceled)
    ensures Begin(s, key, hash, now, canceled) == (s, Rejected)
  {
  }

  /** An owner's report: a non-empty payload of at most 256 KiB is kept, and for 15 minutes only unless retained; anything else is kept for good as unknown. */
  lemma CompletionMeans(s: Store, id: nat, result: Option<Outcome>, retain: bool, now: int)
    requires InHeap(s) && id < |s.heap| && s.heap[id].pending && s.heap[id].expires.None?
    requires s.heap[id].key != "" && s.heap[id].hash != "" && s.heap[id].key in s.entries && s.entries[s.heap[id].key] == id
    ensures var e := Complete(s, s.heap[id].key, s.heap[id].hash, result, retain, now).heap[id];
            var kept := result.Some? && 0 < |result.value.payload| <= 256 * 1024;
            && !e.pending && e.outcome == (if kept then result.value else Outcome("outcome_unknown", true))
            && e.expires == (if kept && !retain then Some(now + 15 * 60 * 1_000_000_000) else None)
  {
  }

  lemma MapSubset(big: map<string, nat>, small: map<string, nat>)
    requires small.Keys <= big.Keys
    ensures |small| <= |big|
    decreases |small|
  {
    SetSubset(small.Keys, big.Keys);
  }

  lemma {:induction false} SetSubset(small: set<string>, big: set<string>)
    requires small <= big
    ensures |small| <= |big|
    decreases |small|
  {
    if small != {} {
      var x :| x in small;
      SetSubset(small - {x}, big - {x});
    }
  }

  lemma PurgeKeepsInv(s: System, now: int)
    requires Inv(s) && s.clock <= now
    ensures Inv(s.(store := Purged(s.store, now), clock := now))
  {
    var t := s.(store := Purged(s.store, now), clock := now);
    MapSubset(s.store.entries, t.store.entries);
  }

  /** The system after granting a fresh entry to `key`. */
  ghost function WithGrant(s: System, key: string, hash: string): System {
    var id := |s.store.heap|;
    s.(store := Store(s.store.entries[key := id],
                      s.store.heap + [Entry(key, hash, true, UNKNOWN, None, s.clock, 0)]),
       claims := s.claims + {id})
  }

  /** The system after the owner of `id` reported. */
  ghost function WithCompletion(s: System, id: nat, result: Option<Outcome>, retain: bool, now: int): System
    requires id < |s.store.heap|
  {
    s.(store := s.store.(heap := s.store.heap[id := Completed(s.store.heap[id], result, retain, now)]),
       clock := now, claims := s.claims - {id})
  }

  /** Deliveries speak of frozen entries, so they stay right. */
  lemma DeliveriesSurvive(s: System, heap': seq<Entry>)
    requires Frozen(s.store.heap, heap') && forall i :: 0 <= i < |s.log| ==> DeliveryOk(s.store.heap, s.log[i])
    ensures forall i :: 0 <= i < |s.log| ==> DeliveryOk(heap', s.log[i])
  {
  }

  lemma GrantTables(s: System, key: string, hash: string)
    requires Indexed(s.store) && ClaimsOk(s.store.heap, s.claims) && HeldOk(s.store, s.clock) && key !in s.store.entries
    ensures var t := WithGrant(s, key, hash); Indexed(t.store) && ClaimsOk(t.store.heap, t.claims) && HeldOk(t.store, t.clock) && Frozen(s.store.heap, t.store.heap)
    ensures WithGrant(s, key, hash).store.heap[..|s.store.heap|] == s.store.heap
  {
    hide Expired;
    var t := WithGrant(s, key, hash);
    forall id | 0 <= id < |t.store.heap| && !Expired(t.store.heap[id], t.clock)
      ensures t.store.heap[id].key in t.store.entries && t.store.entries[t.store.heap[id].key] == id
    {
      assert id < |s.store.heap| ==> t.store.heap[id] == s.store.heap[id];
    }
  }

  lemma GrantIsApart(s: System, key: string, hash: string)
    requires HeldOk(s.store, s.clock) && GrantsApart(s.store.heap) && GrantedBefore(s.store.heap, s.clock) && key !in s.store.entries
    ensures var t := WithGrant(s, key, hash); GrantsApart(t.store.heap) && GrantedBefore(t.store.heap, t.clock)
  {
    hide Expired;
    var t := WithGrant(s, key, hash);
    forall i, j | 0 <= i < j < |t.store.heap| && t.store.heap[i].key == t.store.heap[j].key
      ensures Expired(t.store.heap[i], t.store.heap[j].grantedAt)
    {
      assert t.store.heap[i] == s.store.heap[i];
      assert j < |s.store.heap| ==> t.store.heap[j] == s.store.heap[j];
    }
  }

  lemma WaitersSurvive(s: System, t: System)
    requires Frozen(s.store.heap, t.store.heap) && t.waiters == s.waiters
    requires forall id :: id in s.claims && id !in t.claims ==> id < |t.store.heap| && t.store.heap[id].closes == 1
    requires forall i :: 0 <= i < |s.store.heap| ==> EntryOk(s.store.heap[i])
    requires forall c :: c in s.waiters ==> WaiterOk(s.store.heap, s.claims, s.waiters[c])
    ensures forall c :: c in t.waiters ==> WaiterOk(t.store.heap, t.claims, t.waiters[c])
  {
    forall c | c in t.waiters ensures WaiterOk(t.store.heap, t.claims, t.waiters[c]) {
      assert WaiterOk(s.store.heap, s.claims, s.waiters[c]);
    }
  }

  lemma GrantKeepsInv(s: System, key: string, hash: string)
    requires Inv(s) && key != "" && hash != "" && key !in s.store.entries && |s.store.entries| < MAX_ENTRIES
    ensures Inv(WithGrant(s, key, hash)) && Frozen(s.store.heap, WithGrant(s, key, hash).store.heap)
  {
    hide Indexed, ClaimsOk, HeldOk, GrantsApart, GrantedBefore, DeliveryOk, WaiterOk, Frozen;
    var t := WithGrant(s, key, hash);
    GrantTables(s, key, hash);
    GrantIsApart(s, key, hash);
    DeliveriesSurvive(s, t.store.heap);
    WaitersSurvive(s, t);
    assert forall i :: 0 <= i < |s.store.heap| ==> t.store.heap[i] == s.store.heap[i];
    assert |t.store.entries| == |s.store.entries| + 1;
  }

  lemma CompletionTables(s: System, id: nat, result: Option<Outcome>, retain: bool, now: int)
    requires Inv(s) && id in s.claims && s.clock <= now && id < |s.store.heap|
    ensures var t := WithCompletion(s, id, result, retain, now);
            Indexed(t.store) && ClaimsOk(t.store.heap, t.claims) && HeldOk(t.store, t.clock) && Frozen(s.store.heap, t.store.heap)
  {
    hide DeliveryOk, WaiterOk, GrantsApart, Recordable;
    var t := WithCompletion(s, id, result, retain, now);
    var e := s.store.heap[id];
    assert !Expired(e, s.clock);
    forall i | 0 <= i < |t.store.heap| && !Expired(t.store.heap[i], t.clock)
      ensures t.store.heap[i].key in t.store.entries && t.store.entries[t.store.heap[i].key] == i
    {
      assert i != id ==> t.store.heap[i] == s.store.heap[i];
    }
  }

  lemma CompletionIsApart(s: System, id: nat, result: Option<Outcome>, retain: bool, now: int)
    requires Inv(s) && id in s.claims && s.clock <= now && id < |s.store.heap|
    ensures var t := WithCompletion(s, id, result, retain, now); GrantsApart(t.store.heap) && GrantedBefore(t.store.heap, t.clock)
  {
    hide DeliveryOk, WaiterOk, Indexed, HeldOk, Recordable;
    var t := WithCompletion(s, id, result, retain, now);
    forall i, j | 0 <= i < j < |t.store.heap| && t.store.heap[i].key == t.store.heap[j].key
      ensures Expired(t.store.heap[i], t.store.heap[j].grantedAt)
    {
      assert Expired(s.store.heap[i], s.store.heap[j].grantedAt);
    }
  }

  lemma CompleteKeepsInv(s: System, id: nat, result: Option<Outcome>, retain: bool, now: int)
    requires Inv(s) && id in s.claims && s.clock <= now && id < |s.store.heap|
    ensures Inv(WithCompletion(s, id, result, retain, now))
    ensures Frozen(s.store.heap, WithCompletion(s, id, result, retain, now).store.heap)
  {
    CompletionTables(s, id, result, retain, now);
    CompletionIsApart(s, id, result, retain, now);
    var t := WithCompletion(s, id, result, retain, now);
    DeliveriesSurvive(s, t.store.heap);
    assert EntryOk(s.store.heap[id]) && s.store.heap[id].pending by { hide HeldOk, GrantsApart, DeliveryOk, WaiterOk; }
    assert forall i :: 0 <= i < |t.store.heap| && i != id ==> t.store.heap[i] == s.store.heap[i];
    assert t.store.heap[id].closes == 1;
    hide Indexed, ClaimsOk, HeldOk, GrantsApart, GrantedBefore, DeliveryOk, WaiterOk, Frozen, Recordable;
    WaitersSurvive(s, t);
  }

  /** An owner's completion finds its own entry, still pending. */
  lemma OwnerFindsEntry(s: System, id: nat, result: Option<Outcome>, retain: bool, now: int)
    requires Inv(s) && id in s.claims && id < |s.store.heap|
    ensures Complete(s.store, s.store.heap[id].key, s.store.heap[id].hash, result, retain, now)
            == s.store.(heap := s.store.heap[id := Completed(s.store.heap[id], result, retain, now)])
  {
    hide GrantsApart, DeliveryOk, WaiterOk;
    assert !Expired(s.store.heap[id], s.clock);
  }

  lemma FrozenSame(heap: seq<Entry>)
    ensures Frozen(heap, heap)
  {
  }

  /** Readers of the store after a purge: conflicts, hits and waits. */
  lemma ReadKeepsInv(s: System, caller: nat, key: string, hash: string)
    requires Inv(s) && key in s.store.entries
    ensures var e := s.store.heap[s.store.entries[key]];
      && e.key == key
      && (e.hash == hash && !e.pending ==>
            Inv(s.(log := s.log + [Delivery(s.store.entries[key], key, hash, e.outcome)])))
      && (e.hash == hash && e.pending ==>
            Inv(s.(waiters := s.waiters[caller := Waiter(s.store.entries[key], key, hash)])))
  {
    hide HeldOk, GrantsApart, GrantedBefore;
    assert Indexed(s.store) && ClaimsOk(s.store.heap, s.claims);
  }

  lemma TickKeepsInv(s: System, now: int)
    requires Inv(s) && s.clock <= now
    ensures Inv(s.(clock := now))
  {
    hide GrantsApart, DeliveryOk, WaiterOk;
  }

  lemma BeginKeepsInv(s: System, caller: nat, key: string, hash: string, now: int, canceled: bool)
    requires Inv(s) && s.clock <= now && caller !in s.waiters
    ensures var t := Step(s, BeginAction(caller, key, hash, now, canceled)); Inv(t) && Frozen(s.store.heap, t.store.heap)
  {
    FrozenSame(s.store.heap);
    if key == "" || hash == "" || |key| > MAX_KEY || canceled {
      TickKeepsInv(s, now);
    } else {
      BeginOpens(s, caller, key, hash, now);
      PurgeKeepsInv(s, now);
      var p := s.(store := Purged(s.store, now), clock := now);
      hide Purged, Frozen, Step, Begin;
      if key in p.store.entries {
        ReadKeepsInv(p, caller, key, hash);
      } else if |p.store.entries| < MAX_ENTRIES {
        GrantKeepsInv(p, key, hash);
      }
    }
  }

  /** A claim attempt that passes its guards, seen from the purged store. */
  lemma BeginOpens(s: System, caller: nat, key: string, hash: string, now: int)
    requires Inv(s) && s.clock <= now && caller !in s.waiters
    requires key != "" && hash != "" && |key| <= MAX_KEY
    ensures var t := Step(s, BeginAction(caller, key, hash, now, false));
      var p := s.(store := Purged(s.store, now), clock := now);
      if key in p.store.entries then
        var e := p.store.heap[p.store.entries[key]];
        t == if e.hash != hash then p
             else if e.pending then p.(waiters := p.waiters[caller := Waiter(p.store.entries[key], key, hash)])
             else p.(log := p.log + [Delivery(p.store.entries[key], key, hash, e.outcome)])
      else t == if |p.store.entries| >= MAX_ENTRIES then p else WithGrant(p, key, hash)
  {
    hide Purged, HeldOk, GrantsApart, DeliveryOk, WaiterOk;
  }

  lemma WakeKeepsInv(s: System, caller: nat, canceled: bool)
    requires Inv(s) && Enabled(s, WakeAction(caller, canceled))
    ensures var t := Step(s, WakeAction(caller, canceled)); Inv(t) && Frozen(s.store.heap, t.store.heap)
  {
    hide Indexed, ClaimsOk, HeldOk, GrantsApart, GrantedBefore;
    assert Indexed(s.store);
    assert WaiterOk(s.store.heap, s.claims, s.waiters[caller]);
    FrozenSame(s.store.heap);
  }

  /** Every step of every caller keeps the invariant and freezes what is completed. */
  lemma StepKeepsInv(s: System, a: Action)
    requires Inv(s) && Enabled(s, a)
    ensures Inv(Step(s, a)) && Frozen(s.store.heap, Step(s, a).store.heap)
  {
    if a.BeginAction? {
      BeginKeepsInv(s, a.caller, a.key, a.hash, a.now, a.canceled);
    } else if a.CompleteAction? {
      OwnerFindsEntry(s, a.id, a.result, a.retain, a.now);
      CompleteKeepsInv(s, a.id, a.result, a.retain, a.now);
      hide Inv, Frozen, Completed;
    } else if a.WakeAction? {
      WakeKeepsInv(s, a.caller, a.canceled);
    } else {
      FrozenSame(s.store.heap);
    }
  }

  // --- Runs -------------------------------------------------------------------------------------

  ghost predicate Next(s: System, a: Action, t: System) {
    && InHeap(s.store) && (forall id :: id in s.claims ==> id < |s.store.heap|)
    && Enabled(s, a) && t == Step(s, a)
  }

  /** Any interleaving of any callers from an empty store. */
  ghost predicate IsRun(states: seq<System>, actions: seq<Action>) {
    && |states| == |actions| + 1 && Initial(states[0])
    && forall i :: 0 <= i < |actions| ==> StepAt(states, actions, i)
  }

  ghost predicate StepAt(states: seq<System>, actions: seq<Action>, i: nat)
    requires i < |actions| < |states|
  {
    Next(states[i], actions[i], states[i + 1])
  }

  lemma InitialInv(s: System)
    requires Initial(s)
    ensures Inv(s)
  {
  }

  /** The invariant holds in every state of every run. */
  lemma {:induction false} RunInv(states: seq<System>, actions: seq<Action>, n: nat)
    requires IsRun(states, actions) && n < |states|
    ensures Inv(states[n])
  {
    hide Inv, Step, Enabled;
    if n == 0 {
      InitialInv(states[0]);
    } else {
      RunInv(states, actions, n - 1);
      assert StepAt(states, actions, n - 1);
      StepKeepsInv(states[n - 1], actions[n - 1]);
    }
  }

  /** What is completed never changes again. */
  lemma {:induction false} RunFrozen(states: seq<System>, actions: seq<Action>, m: nat, n: nat)
    requires IsRun(states, actions) && m <= n < |states|
    ensures Frozen(states[m].store.heap, states[n].store.heap)
  {
    if m < n {
      hide Inv, Step, Enabled, Frozen;
      RunFrozen(states, actions, m, n - 1);
      RunStep(states, actions, n - 1);
      StepKeepsInv(states[n - 1], actions[n - 1]);
      FrozenChain(states[m].store.heap, states[n - 1].store.heap, states[n].store.heap);
    } else {
      FrozenSame(states[m].store.heap);
    }
  }

  lemma FrozenChain(a: seq<Entry>, b: seq<Entry>, c: seq<Entry>)
    requires Frozen(a, b) && Frozen(b, c)
    ensures Frozen(a, c)
  {
  }

  /** How an entry's state changes in one step: only its owner's completion touches it. */
  lemma StepTouches(s: System, a: Action, id: nat)
    requires Inv(s) && Enabled(s, a) && id < |Step(s, a).store.heap|
    ensures var t := Step(s, a);
      || (id < |s.store.heap| && t.store.heap[id] == s.store.heap[id])
      || (id == |s.store.heap| && t.store.heap[id].pending && t.store.heap[id].expires.None?)
      || (a.CompleteAction? && a.id == id && id < |s.store.heap|
          && t.store.heap[id] == Completed(s.store.heap[id], a.result, a.retain, a.now))
  {
    if a.CompleteAction? {
      OwnerFindsEntry(s, a.id, a.result, a.retain, a.now);
    } else if a.BeginAction? {
      BeginTouches(s, a.caller, a.key, a.hash, a.now, a.canceled, id);
    }
    hide Inv, Completed, Expired, Begin;
  }

  lemma BeginTouches(s: System, caller: nat, key: string, hash: string, now: int, canceled: bool, id: nat)
    requires Inv(s) && s.clock <= now && caller !in s.waiters
    requires id < |Step(s, BeginAction(caller, key, hash, now, canceled)).store.heap|
    ensures var t := Step(s, BeginAction(caller, key, hash, now, canceled));
      || (id < |s.store.heap| && t.store.heap[id] == s.store.heap[id])
      || (id == |s.store.heap| && t.store.heap[id].pending && t.store.heap[id].expires.None?)
  {
    if !(key == "" || hash == "" || |key| > MAX_KEY || canceled) {
      BeginOpens(s, caller, key, hash, now);
      hide Begin, Step, Inv;
    }
  }

  /** Every completed entry was completed by one owner's report in the run, which it records. */
  lemma {:induction false} CompletionHasOwner(states: seq<System>, actions: seq<Action>, n: nat, id: nat)
    returns (m: nat)
    requires IsRun(states, actions) && n < |states| && id < |states[n].store.heap| && !states[n].store.heap[id].pending
    ensures m < n && actions[m].CompleteAction? && actions[m].id == id
    ensures var e, a := states[n].store.heap[id], actions[m];
      && e.outcome == (if Recordable(a.result) then a.result.value else UNKNOWN)
      && e.expires == (if Recordable(a.result) && !a.retain then Some(a.now + TTL) else None)
  {
    assert |states| == |actions| + 1;
    StartsEmpty(states, actions);
    hide IsRun, Inv, Recordable;
    RunStep(states, actions, n - 1);
    StepCompletes(states[n - 1], actions[n - 1], id);
    hide Step, Enabled;
    if id < |states[n - 1].store.heap| && !states[n - 1].store.heap[id].pending {
      m := CompletionHasOwner(states, actions, n - 1, id);
    } else {
      m := n - 1;
    }
  }

  lemma StartsEmpty(states: seq<System>, actions: seq<Action>)
    requires IsRun(states, actions)
    ensures states[0].store.heap == []
  {
  }

  lemma RunStep(states: seq<System>, actions: seq<Action>, n: nat)
    requires IsRun(states, actions) && n < |actions|
    ensures Inv(states[n]) && Enabled(states[n], actions[n]) && states[n + 1] == Step(states[n], actions[n])
  {
    RunInv(states, actions, n);
    assert StepAt(states, actions, n);
  }

  /** An entry completed after a step was completed before it, or is completed by it. */
  lemma StepCompletes(s: System, a: Action, id: nat)
    requires Inv(s) && Enabled(s, a) && id < |Step(s, a).store.heap| && !Step(s, a).store.heap[id].pending
    ensures id < |s.store.heap|
    ensures !s.store.heap[id].pending ==> Step(s, a).store.heap[id] == s.store.heap[id]
    ensures s.store.heap[id].pending ==>
      && a.CompleteAction? && a.id == id && s.store.heap[id].expires.None?
      && Step(s, a).store.heap[id] == Completed(s.store.heap[id], a.result, a.retain, a.now)
  {
    StepTouches(s, a, id);
    StepKeepsInv(s, a);
    assert id < |s.store.heap| && EntryOk(s.store.heap[id]);
    hide Step, Enabled, Inv;
  }

  /** Two grants of one key are separated by a known-outcome completion and a full TTL of store clock. */
  lemma GrantsAreSeparated(states: seq<System>, actions: seq<Action>, n: nat, i: nat, j: nat) returns (m: nat)
    requires IsRun(states, actions) && n < |states| && i < j < |states[n].store.heap|
    requires states[n].store.heap[i].key == states[n].store.heap[j].key
    ensures m < n && actions[m].CompleteAction? && actions[m].id == i
    ensures Recordable(actions[m].result) && !actions[m].retain
    ensures actions[m].now + TTL <= states[n].store.heap[j].grantedAt
  {
    RunInv(states, actions, n);
    assert Expired(states[n].store.heap[i], states[n].store.heap[j].grantedAt);
    m := CompletionHasOwner(states, actions, n, i);
  }

  /** A key whose outcome was uncertain or could not be recorded is never granted again. */
  lemma UncertainNeverRegranted(states: seq<System>, actions: seq<Action>, m: nat, n: nat, j: nat)
    requires IsRun(states, actions) && m < |actions| && m < n < |states|
    requires actions[m].CompleteAction? && (actions[m].retain || !Recordable(actions[m].result))
    requires actions[m].id < j < |states[n].store.heap|
    ensures states[n].store.heap[j].key != states[n].store.heap[actions[m].id].key
  {
    var id := actions[m].id;
    var s, t := states[m], states[m + 1];
    RunStep(states, actions, m);
    RunInv(states, actions, n);
    OwnerFindsEntry(s, id, actions[m].result, actions[m].retain, actions[m].now);
    assert EntryOk(s.store.heap[id]) && s.store.heap[id].pending;
    assert !t.store.heap[id].pending && t.store.heap[id].expires.None?;
    RunFrozen(states, actions, m + 1, n);
  }

  /** Every hit, purged or not, delivers the outcome its owner recorded for the same key and hash. */
  lemma HitsDeliverOwnersOutcome(states: seq<System>, actions: seq<Action>, n: nat, k: nat) returns (m: nat)
    requires IsRun(states, actions) && n < |states| && k < |states[n].log|
    ensures var d, heap := states[n].log[k], states[n].store.heap;
      && d.id < |heap| && heap[d.id].key == d.key && heap[d.id].hash == d.hash
      && m < n && actions[m].CompleteAction? && actions[m].id == d.id
      && d.outcome == (if Recordable(actions[m].result) then actions[m].result.value else UNKNOWN)
  {
    RunInv(states, actions, n);
    assert DeliveryOk(states[n].store.heap, states[n].log[k]);
    m := CompletionHasOwner(states, actions, n, states[n].log[k].id);
  }

  /** In every reachable state: bounded, each channel closed at most once, and no waiter left behind. */
  lemma StoreIsSafe(states: seq<System>, actions: seq<Action>, n: nat)
    requires IsRun(states, actions) && n < |states|
    ensures var s := states[n];
      && |s.store.entries| <= MAX_ENTRIES
      && (forall i :: 0 <= i < |s.store.heap| ==> s.store.heap[i].closes <= 1)
      && (forall c :: c in s.waiters ==>
            s.waiters[c].id in s.claims || (s.waiters[c].id < |s.store.heap| && s.store.heap[s.waiters[c].id].closes == 1))
  {
    RunInv(states, actions, n);
    var s := states[n];
    forall i | 0 <= i < |s.store.heap| ensures s.store.heap[i].closes <= 1 {
      assert EntryOk(s.store.heap[i]);
    }
    forall c | c in s.waiters
      ensures s.waiters[c].id in s.claims || (s.waiters[c].id < |s.store.heap| && s.store.heap[s.waiters[c].id].closes == 1)
    {
      assert WaiterOk(s.store.heap, s.claims, s.waiters[c]);
    }
  }
}
