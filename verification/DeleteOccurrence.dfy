/**
 Deleting one occurrence of a series: an EXDATE on the master plus the removal of
 a matching override, and what that does to every later expansion.
 */
module DeleteOccurrence {
  import opened Wrappers
  import opened OccurrenceExpansion

  const MAX_SEQUENCE := 0x7fff_ffff

  /** An EXDATE property as it reads back: its instants, or unreadable. */
  datatype ExDateProp = Unreadable | Dates(instants: seq<int>)

  datatype RecurrenceId = Absent | Malformed | At(instant: int)

  datatype Child = EventChild(id: RecurrenceId, event: Event) | OtherChild(name: string)

  /** The children of a calendar object, and its master's EXDATE list and SEQUENCE. */
  datatype Resource = Resource(children: seq<Child>, exDates: seq<ExDateProp>, sequence: int)

  datatype Result = NoChange | Stored(resource: Resource) | Refused

  /** Writes an EXDATE in the form of the master's DTSTART; fails on an unknown zone. */
  type Writer = int -> Option<ExDateProp>

  predicate SameSecond(a: int, b: int) {
    UnixSecond(a) == UnixSecond(b)
  }

  predicate Covers(prop: ExDateProp, recId: int) {
    prop.Dates? && exists d :: d in prop.instants && SameSecond(d, recId)
  }

  predicate AlreadyExcluded(props: seq<ExDateProp>, recId: int) {
    exists i :: 0 <= i < |props| && Covers(props[i], recId)
  }

  predicate IsOverrideAt(child: Child, recId: int) {
    child.EventChild? && child.id.At? && SameSecond(child.id.instant, recId)
  }

  function Kept(children: seq<Child>, recId: int): (kept: seq<Child>)
    ensures forall c :: c in kept ==> c in children && !IsOverrideAt(c, recId)
    ensures |kept| <= |children|
    ensures |kept| == |children| <==> forall c :: c in children ==> !IsOverrideAt(c, recId)
  {
    if children == [] then []
    else
      var rest := Kept(children[..|children| - 1], recId);
      var last := children[|children| - 1];
      assert children == children[..|children| - 1] + [last];
      if IsOverrideAt(last, recId) then rest else rest + [last]
  }

  predicate HasMaster(children: seq<Child>) {
    exists c :: c in children && c.EventChild? && c.id.Absent?
  }

  /** Specification of one delete against a fresh read of the resource. */
  function DeleteStep(r: Resource, recId: int, write: Writer, etag: string): Result {
    var already := AlreadyExcluded(r.exDates, recId);
    var kept := Kept(r.children, recId);
    if !HasMaster(r.children) then Refused
    else if already && |kept| == |r.children| then NoChange
    else if !already && write(recId).None? then Refused
    else if !(0 <= r.sequence < MAX_SEQUENCE) || etag == "" then Refused
    else Stored(Resource(kept, if already then r.exDates else r.exDates + [write(recId).value], r.sequence + 1))
  }

  /** Some readable EXDATE lies in the second of the instant. */
  ghost predicate HasExDate(r: Resource, recId: int) {
    exists i, d :: 0 <= i < |r.exDates| && r.exDates[i].Dates? && d in r.exDates[i].instants && d / SECOND == recId / SECOND
  }

  ghost predicate HasOverride(r: Resource, recId: int) {
    exists c :: c in r.children && c.EventChild? && c.id.At? && c.id.instant / SECOND == recId / SECOND
  }

  ghost predicate HasEvent(r: Resource) {
    exists c :: c in r.children && c.EventChild? && c.id.Absent?
  }

  /** When a delete does nothing, when it stores, and what it stores. */
  lemma DeleteMeans(r: Resource, recId: int, write: Writer, etag: string)
    ensures var result := DeleteStep(r, recId, write, etag);
      && (result.NoChange? <==> HasEvent(r) && HasExDate(r, recId) && !HasOverride(r, recId))
      && (result.Stored? <==>
            && HasEvent(r) && (HasOverride(r, recId) || !HasExDate(r, recId))
            && (HasExDate(r, recId) || write(recId).Some?)
            && 0 <= r.sequence < 0x7fff_ffff && etag != "")
      && (result.Stored? ==>
            && result.resource.sequence == r.sequence + 1
            && result.resource.exDates == (if HasExDate(r, recId) then r.exDates else r.exDates + [write(recId).value])
            && result.resource.children == Kept(r.children, recId))
  {
    assert AlreadyExcluded(r.exDates, recId) <==> HasExDate(r, recId) by {
      if HasExDate(r, recId) {
        var i, d :| 0 <= i < |r.exDates| && r.exDates[i].Dates? && d in r.exDates[i].instants && d / SECOND == recId / SECOND;
        assert Covers(r.exDates[i], recId);
      }
    }
  }

  /** The kept children are the others, in order. */
  lemma {:induction false} KeptIsFilter(a: seq<Child>, b: seq<Child>, c: Child, recId: int)
    ensures Kept(a + b, recId) == Kept(a, recId) + Kept(b, recId)
    ensures Kept([c], recId) ==
            if c.EventChild? && c.id.At? && c.id.instant / SECOND == recId / SECOND then [] else [c]
    decreases |b|
  {
    assert [c][..0] == [];
    if b == [] {
      assert a + b == a;
    } else {
      var n := |b| - 1;
      assert (a + b)[..|a + b| - 1] == a + b[..n];
      KeptIsFilter(a, b[..n], c, recId);
    }
  }

  lemma ExcludedSnoc(props: seq<ExDateProp>, last: ExDateProp, recId: int)
    ensures AlreadyExcluded(props + [last], recId) <==> AlreadyExcluded(props, recId) || Covers(last, recId)
  {
    hide Covers;
    var all := props + [last];
    if AlreadyExcluded(props, recId) {
      var i :| 0 <= i < |props| && Covers(props[i], recId);
      assert Covers(all[i], recId);
    }
    assert all[|props|] == last;
  }

  method FindExcluded(props: seq<ExDateProp>, recId: int) returns (already: bool)
    ensures already == AlreadyExcluded(props, recId)
  {
    hide Covers;
    already := false;
    for i := 0 to |props|
      invariant already == AlreadyExcluded(props[..i], recId)
    {
      assert props[..i + 1] == props[..i] + [props[i]];
      ExcludedSnoc(props[..i], props[i], recId);
      if Covers(props[i], recId) {
        already := true;
      }
    }
    assert props[..|props|] == props;
  }

  lemma KeptSnoc(children: seq<Child>, last: Child, recId: int)
    ensures Kept(children + [last], recId) ==
              if IsOverrideAt(last, recId) then Kept(children, recId) else Kept(children, recId) + [last]
  {
    assert (children + [last])[..|children|] == children;
  }

  method KeepOthers(children: seq<Child>, recId: int) returns (kept: seq<Child>, removed: bool)
    ensures kept == Kept(children, recId) && removed == (|kept| < |children|)
  {
    hide Kept, IsOverrideAt;
    kept, removed := [], false;
    assert Kept([], recId) == [];
    for i := 0 to |children|
      invariant kept == Kept(children[..i], recId)
      invariant removed == (|kept| < i) && |kept| <= i
    {
      assert children[..i + 1] == children[..i] + [children[i]];
      KeptSnoc(children[..i], children[i], recId);
      if IsOverrideAt(children[i], recId) {
        removed := true;
      } else {
        kept := kept + [children[i]];
      }
    }
    assert children[..|children|] == children;
  }

  class CalendarObject {
    var children: seq<Child>
    var exDates: seq<ExDateProp>
    var sequence: int
    var etag: string

    function View(): Resource
      reads this
    {
      Resource(children, exDates, sequence)
    }

    constructor (r: Resource, tag: string)
      ensures View() == r && etag == tag
    {
      children, exDates, sequence, etag := r.children, r.exDates, r.sequence, tag;
    }

    /** Mutates the fetched copy in place; only a `Stored` outcome reaches the server. */
    method Delete(recId: int, ifMatch: string, write: Writer) returns (result: Result)
      modifies this
      ensures result == old(DeleteStep(View(), recId, write, if ifMatch != "" then ifMatch else etag))
      ensures result.Stored? ==> View() == result.resource
      ensures result.NoChange? ==> View() == old(View())
      ensures etag == old(etag)
    {
      hide Kept, AlreadyExcluded, HasMaster;
      if !HasMaster(children) {
        return Refused;
      }
      var already := FindExcluded(exDates, recId);
      var kept, removed := KeepOthers(children, recId);
      if already && !removed {
        return NoChange;
      }
      if !already {
        var prop := write(recId);
        if prop.None? {
          return Refused;
        }
        exDates := exDates + [prop.value];
      }
      children := kept;
      if !(0 <= sequence < MAX_SEQUENCE) {
        return Refused;
      }
      sequence := sequence + 1;
      var tag := if ifMatch != "" then ifMatch else etag;
      if tag == "" {
        return Refused;
      }
      result := Stored(View());
    }
  }

  // --- The series that expansion reads from a resource ----------------------------------

  function AllDates(props: seq<ExDateProp>): (dates: seq<int>) {
    if props == [] then []
    else
      var last := props[|props| - 1];
      AllDates(props[..|props| - 1]) + if last.Dates? then last.instants else []
  }

  function Overrides(children: seq<Child>): seq<Event> {
    if children == [] then []
    else
      var last := children[|children| - 1];
      Overrides(children[..|children| - 1]) + if last.EventChild? && last.id.At? then [last.event] else []
  }

  function Master(children: seq<Child>): Option<Event> {
    if children == [] then None
    else
      var last := children[|children| - 1];
      if last.EventChild? && last.id.Absent? then Some(last.event) else Master(children[..|children| - 1])
  }

  /** The object parses: every EXDATE and RECURRENCE-ID is readable, and a master is present. */
  ghost predicate Parses(r: Resource) {
    && HasMaster(r.children)
    && (forall i :: 0 <= i < |r.exDates| ==> r.exDates[i].Dates?)
    && (forall c :: c in r.children && c.EventChild? ==> !c.id.Malformed?)
    && (forall c :: c in r.children && c.EventChild? && c.id.At? ==> c.event.recurrenceId == c.id.instant)
  }

  ghost predicate RowOf(r: Resource, rule: Rule, addDays: AddDays, w: Window, e: Event) {
    var master := Master(r.children);
    && master.Some?
    && IsShownRow(master.value.(exDates := AllDates(r.exDates)), Overrides(r.children), rule, addDays, w, e)
  }

  /** The written EXDATE reads back as the same second. */
  ghost predicate ReadsBack(write: Writer, recId: int) {
    write(recId).Some? ==>
      && write(recId).value.Dates?
      && write(recId).value.instants != []
      && forall d :: d in write(recId).value.instants ==> SameSecond(d, recId)
  }

  lemma {:induction false} DatesCover(props: seq<ExDateProp>, x: int)
    ensures (exists d :: d in AllDates(props) && SameSecond(d, x)) <==> AlreadyExcluded(props, x)
  {
    hide UnixSecond;
    if props != [] {
      var rest, last := props[..|props| - 1], props[|props| - 1];
      DatesCover(rest, x);
      assert props == rest + [last];
      ExcludedSnoc(rest, last, x);
    }
  }

  lemma {:induction false} KeptMaster(children: seq<Child>, recId: int)
    ensures Master(Kept(children, recId)) == Master(children)
  {
    if children != [] {
      var rest, last := children[..|children| - 1], children[|children| - 1];
      KeptMaster(rest, recId);
      assert !IsOverrideAt(last, recId) ==> Kept(children, recId)[..|Kept(rest, recId)|] == Kept(rest, recId);
    }
  }

  lemma OverridesSnoc(children: seq<Child>, last: Child)
    ensures Overrides(children + [last]) ==
              Overrides(children) + if last.EventChild? && last.id.At? then [last.event] else []
  {
    assert (children + [last])[..|children|] == children;
  }

  /** The overrides read from an object are the events of its children with a RECURRENCE-ID. */
  lemma {:induction false} OverridesMean(children: seq<Child>, e: Event)
    ensures e in Overrides(children) <==> exists c :: c in children && c.EventChild? && c.id.At? && c.event == e
  {
    if children != [] {
      var n := |children| - 1;
      OverridesMean(children[..n], e);
      assert children == children[..n] + [children[n]];
    }
  }

  /** The master is an event child without a RECURRENCE-ID, found whenever there is one. */
  lemma {:induction false} MasterMeans(children: seq<Child>)
    ensures Master(children).Some? <==> exists c :: c in children && c.EventChild? && c.id.Absent?
    ensures Master(children).Some? ==> exists c :: c in children && c.EventChild? && c.id.Absent? && c.event == Master(children).value
  {
    if children != [] {
      var n := |children| - 1;
      MasterMeans(children[..n]);
      assert children == children[..n] + [children[n]];
    }
  }

  lemma {:induction false} KeptOverrides(children: seq<Child>, recId: int)
    requires forall c :: c in children && c.EventChild? && c.id.At? ==> c.event.recurrenceId == c.id.instant
    ensures OverrideMap(Overrides(Kept(children, recId))) == OverrideMap(Overrides(children)) - {UnixSecond(recId)}
  {
    hide UnixSecond, OverrideMap;
    if children == [] {
      assert Overrides(Kept(children, recId)) == [];
      assert OverrideMap([]) == map[] by { EmptyMap(); }
    } else {
      hide Kept, Overrides;
      var rest, last := children[..|children| - 1], children[|children| - 1];
      assert last in children && children == rest + [last];
      KeptOverrides(rest, recId);
      var kept := Kept(rest, recId);
      KeptSnoc(rest, last, recId);
      OverridesSnoc(rest, last);
      OverridesSnoc(kept, last);
      if last.EventChild? && last.id.At? {
        MapSnoc(Overrides(rest), last.event);
        MapSnoc(Overrides(kept), last.event);
        RemoveThenSet(OverrideMap(Overrides(rest)), UnixSecond(recId), UnixSecond(last.event.recurrenceId), Shown(last.event));
      } else {
        assert Overrides(rest) + [] == Overrides(rest) && Overrides(kept) + [] == Overrides(kept);
      }
    }
  }

  lemma RemoveThenSet(m: map<int, Event>, gone: int, k: int, v: Event)
    ensures m[k := v] - {gone} == if k == gone then m - {gone} else (m - {gone})[k := v]
  {
  }

  lemma EmptyMap()
    ensures OverrideMap([]) == map[]
  {
  }

  lemma MapSnoc(overrides: seq<Event>, o: Event)
    ensures OverrideMap(overrides + [o]) == OverrideMap(overrides)[UnixSecond(o.recurrenceId) := Shown(o)]
  {
    assert (overrides + [o])[..|overrides|] == overrides;
  }

  lemma KeysMatch(overrides: seq<Event>)
    ensures forall k :: k in OverrideMap(overrides) ==> UnixSecond(OverrideMap(overrides)[k].recurrenceId) == k
  {
  }

  /** Excluding one more second removes exactly that second's rule rows. */
  lemma ExpansionAfterDelete(
    master: Event, master': Event, overrides: seq<Event>, overrides': seq<Event>, recId: int,
    rule: Rule, addDays: AddDays, w: Window, e: Event)
    requires master' == master.(exDates := master'.exDates)
    requires forall x :: Excluded(master', x) <==> Excluded(master, x) || SameSecond(x, recId)
    requires OverrideMap(overrides') == OverrideMap(overrides) - {UnixSecond(recId)}
    ensures IsShownRow(master', overrides', rule, addDays, w, e) <==>
              IsShownRow(master, overrides, rule, addDays, w, e) && !SameSecond(e.recurrenceId, recId)
  {
    hide UnixSecond, OverrideMap, VisibleStart, Overlaps, OccurrenceEnd;
    KeysMatch(overrides);
    var m, m' := OverrideMap(overrides), OverrideMap(overrides');
    if IsOverrideRow(m, w, e) && !SameSecond(e.recurrenceId, recId) {
      var k :| k in m && m[k] == e && Overlaps(e.start, e.end, w);
      assert k in m' && m'[k] == e;
    }
    if IsOverrideRow(m', w, e) {
      var k :| k in m' && m'[k] == e && Overlaps(e.start, e.end, w);
      assert k in m && m[k] == e;
    }
    SameEnds(master, master', addDays, e.recurrenceId);
    VisibleAfter(master, master', recId, rule, addDays, w, e.recurrenceId);
    assert IsRuleRow(master', m', rule, addDays, w, e) <==>
             IsRuleRow(master, m, rule, addDays, w, e) && !SameSecond(e.recurrenceId, recId);
  }

  lemma SameEnds(master: Event, master': Event, addDays: AddDays, occ: int)
    requires master' == master.(exDates := master'.exDates)
    ensures OccurrenceEnd(master', addDays, occ) == OccurrenceEnd(master, addDays, occ)
    ensures Clone(master', addDays, occ) == Clone(master, addDays, occ)
  {
  }

  lemma VisibleAfter(
    master: Event, master': Event, recId: int, rule: Rule, addDays: AddDays, w: Window, x: int)
    requires master' == master.(exDates := master'.exDates)
    requires Excluded(master', x) <==> Excluded(master, x) || SameSecond(x, recId)
    ensures VisibleStart(master', rule, addDays, w, x) <==>
              VisibleStart(master, rule, addDays, w, x) && !SameSecond(x, recId)
  {
    hide Excluded, UnixSecond;
    SameEnds(master, master', addDays, x);
  }

  lemma SameSecondExcluded(props: seq<ExDateProp>, a: int, b: int)
    requires AlreadyExcluded(props, a) && SameSecond(a, b)
    ensures AlreadyExcluded(props, b)
  {
    var i :| 0 <= i < |props| && Covers(props[i], a);
    assert Covers(props[i], b);
  }

  lemma ExcludedAfter(exDates: seq<ExDateProp>, exDates': seq<ExDateProp>, master: Event, recId: int, x: int)
    requires || (exDates' == exDates && AlreadyExcluded(exDates, recId))
             || (&& |exDates'| == |exDates| + 1 && exDates'[..|exDates|] == exDates
                 && exDates'[|exDates|].Dates? && exDates'[|exDates|].instants != []
                 && forall d :: d in exDates'[|exDates|].instants ==> SameSecond(d, recId))
    ensures Excluded(master.(exDates := AllDates(exDates')), x) <==>
              Excluded(master.(exDates := AllDates(exDates)), x) || SameSecond(x, recId)
  {
    hide UnixSecond, AllDates, AlreadyExcluded;
    DatesCover(exDates, x);
    DatesCover(exDates', x);
    if |exDates'| == |exDates| + 1 {
      var added := exDates'[|exDates|];
      assert added.instants[0] in added.instants;
      assert exDates' == exDates + [added];
      ExcludedSnoc(exDates, added, x);
      assert Covers(added, x) <==> SameSecond(x, recId) by {
        assert SameSecond(added.instants[0], recId);
        assert SameSecond(x, recId) ==> SameSecond(added.instants[0], x);
      }
    } else {
      if SameSecond(recId, x) { SameSecondExcluded(exDates, recId, x); }
    }
  }

  /** Deleting then expanding any window gives the former rows minus the deleted instant's. */
  lemma DeleteThenExpand(r: Resource, recId: int, write: Writer, etag: string,
                         rule: Rule, addDays: AddDays, w: Window, e: Event)
    requires Parses(r) && ReadsBack(write, recId)
    requires DeleteStep(r, recId, write, etag).Stored?
    ensures var r' := DeleteStep(r, recId, write, etag).resource;
            RowOf(r', rule, addDays, w, e) <==> RowOf(r, rule, addDays, w, e) && !SameSecond(e.recurrenceId, recId)
  {
    hide IsShownRow, Excluded, AllDates, Overrides, Kept, UnixSecond, Parses;
    var r' := DeleteStep(r, recId, write, etag).resource;
    KeptMaster(r.children, recId);
    assert forall c :: c in r.children && c.EventChild? && c.id.At? ==> c.event.recurrenceId == c.id.instant by {
      ParsedIds(r);
    }
    KeptOverrides(r.children, recId);
    if Master(r.children).Some? {
      var m := Master(r.children).value;
      forall x ensures Excluded(m.(exDates := AllDates(r'.exDates)), x) <==>
                       Excluded(m.(exDates := AllDates(r.exDates)), x) || SameSecond(x, recId) {
        ExcludedAfter(r.exDates, r'.exDates, m, recId, x);
      }
      ExpansionAfterDelete(m.(exDates := AllDates(r.exDates)), m.(exDates := AllDates(r'.exDates)),
                           Overrides(r.children), Overrides(r'.children), recId, rule, addDays, w, e);
    }
  }

  lemma ParsedIds(r: Resource)
    requires Parses(r)
    ensures forall c :: c in r.children && c.EventChild? && c.id.At? ==> c.event.recurrenceId == c.id.instant
  {
  }

  /** A no-op delete is right: the instant had no row to begin with. */
  lemma NoChangeMeansGone(r: Resource, recId: int, write: Writer, etag: string,
                          rule: Rule, addDays: AddDays, w: Window, e: Event)
    requires Parses(r) && DeleteStep(r, recId, write, etag).NoChange?
    ensures RowOf(r, rule, addDays, w, e) ==> !SameSecond(e.recurrenceId, recId)
  {
    hide UnixSecond, AllDates, Kept, Overrides, OverrideMap, Clone, OccurrenceEnd, Overlaps, Master, HasMaster;
    if Master(r.children).Some? && SameSecond(e.recurrenceId, recId) {
      DatesCover(r.exDates, e.recurrenceId);
      SameSecondExcluded(r.exDates, recId, e.recurrenceId);
      KeptAll(r.children, recId);
      KeptOverrides(r.children, recId);
      KeysMatch(Overrides(r.children));
    }
  }

  lemma {:induction false} KeptAll(children: seq<Child>, recId: int)
    requires |Kept(children, recId)| == |children|
    ensures Kept(children, recId) == children
  {
    if children != [] {
      KeptAll(children[..|children| - 1], recId);
    }
  }

  lemma {:induction false} KeptTwice(children: seq<Child>, recId: int)
    ensures Kept(Kept(children, recId), recId) == Kept(children, recId)
  {
    var kept := Kept(children, recId);
    KeptAll(kept, recId);
  }

  /** A second delete of the same instant changes nothing. */
  lemma SecondDeleteIsNoOp(r: Resource, recId: int, write: Writer, etag: string, etag': string)
    requires ReadsBack(write, recId) && DeleteStep(r, recId, write, etag).Stored?
    ensures DeleteStep(DeleteStep(r, recId, write, etag).resource, recId, write, etag') == NoChange
  {
    hide UnixSecond, Kept;
    var r' := DeleteStep(r, recId, write, etag).resource;
    KeptTwice(r.children, recId);
    MasterSurvives(r.children, recId);
    if !AlreadyExcluded(r.exDates, recId) {
      var added := write(recId).value;
      assert added.instants[0] in added.instants;
      assert SameSecond(added.instants[0], recId) && Covers(added, recId);
      assert r'.exDates[|r.exDates|] == added;
    }
  }

  lemma {:induction false} MasterSurvives(children: seq<Child>, recId: int)
    requires HasMaster(children)
    ensures HasMaster(Kept(children, recId))
  {
    var rest, last := children[..|children| - 1], children[|children| - 1];
    assert children == rest + [last];
    if last.EventChild? && last.id.Absent? {
      KeptSnoc(rest, last, recId);
      assert !IsOverrideAt(last, recId);
      assert Kept(children, recId)[|Kept(rest, recId)|] == last;
    } else {
      MasterSurvives(rest, recId);
      var c :| c in Kept(rest, recId) && c.EventChild? && c.id.Absent?;
      KeptSnoc(rest, last, recId);
      assert c in Kept(children, recId);
    }
  }
}
