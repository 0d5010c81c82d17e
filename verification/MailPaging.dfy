/**
 Mail search paging: each call scans UID windows downwards from a cursor and returns
 one page with the cursor of the next. Following the cursor enumerates the mailbox.
 */
module MailPaging {
  import opened Wrappers
  import opened Sequences

  const WINDOW := 5000
  const MAX_SCANNED := 50_000
  const MAX_RESULT_BYTES := 262144
  const MAX_LIMIT := 50

  // --- Expanding a server's UID set -----------------------------------------------------------

  datatype UidRange = UidRange(start: nat, stop: nat)

  datatype Expansion = Uids(uids: seq<nat>) | ProtocolError | TooLarge

  /** Ranges ascend without overlap inside the requested window. */
  predicate WellFormedSet(ranges: seq<UidRange>, min: nat, max: nat) {
    && (forall i :: 0 <= i < |ranges| ==> 1 <= ranges[i].start <= ranges[i].stop && min <= ranges[i].start && ranges[i].stop <= max)
    && (forall i :: 0 < i < |ranges| ==> ranges[i - 1].stop < ranges[i].start)
  }

  function Cardinality(ranges: seq<UidRange>): int {
    if ranges == [] then 0
    else Cardinality(ranges[..|ranges| - 1]) + ranges[|ranges| - 1].stop - ranges[|ranges| - 1].start + 1
  }

  ghost predicate InSet(ranges: seq<UidRange>, uid: nat) {
    exists i :: 0 <= i < |ranges| && ranges[i].start <= uid <= ranges[i].stop
  }

  lemma {:induction false} CardinalityGrows(ranges: seq<UidRange>, n: nat, min: nat, max: nat)
    requires WellFormedSet(ranges, min, max) && n <= |ranges|
    ensures 0 <= Cardinality(ranges[..n]) <= Cardinality(ranges)
    decreases |ranges|
  {
    if n < |ranges| {
      CardinalityGrows(ranges[..|ranges| - 1], n, min, max);
      assert ranges[..|ranges| - 1][..n] == ranges[..n];
    } else {
      assert ranges[..n] == ranges;
      if n > 0 {
        CardinalityGrows(ranges[..n - 1], n - 1, min, max);
        assert ranges[..n - 1][..n - 1] == ranges[..n - 1];
      }
    }
  }

  /** Accepts exactly the well-formed sets of at most `maxCount` UIDs, and lists their members ascending. */
  method ExpandUidSet(ranges: seq<UidRange>, min: nat, max: nat, maxCount: nat) returns (r: Expansion)
    ensures r.Uids? <==> 1 <= min <= max && 0 < maxCount && |ranges| <= maxCount
                         && WellFormedSet(ranges, min, max) && Cardinality(ranges) <= maxCount
    ensures r.Uids? ==> |r.uids| == Cardinality(ranges) && Ascends(r.uids) && forall u: nat :: u in r.uids <==> InSet(ranges, u)
  {
    hide Cardinality, InSet, Ascends;
    CardinalityOfNone(ranges);
    if min == 0 || max < min || maxCount == 0 {
      return ProtocolError;
    }
    if |ranges| > maxCount {
      return TooLarge;
    }
    var cardinality: nat, previous: nat := 0, 0;
    for i := 0 to |ranges|
      invariant WellFormedSet(ranges[..i], min, max)
      invariant cardinality == Cardinality(ranges[..i]) <= maxCount
      invariant i > 0 ==> previous == ranges[i - 1].stop
    {
      var range := ranges[i];
      CardinalityStep(ranges, i);
      if range.start == 0 || range.stop == 0 || range.start > range.stop {
        return ProtocolError;
      }
      if range.start < min || range.stop > max || (i > 0 && range.start <= previous) {
        return ProtocolError;
      }
      var size := range.stop - range.start + 1;
      if size > maxCount - cardinality {
        TooMany(ranges, i, min, max);
        return TooLarge;
      }
      cardinality, previous := cardinality + size, range.stop;
    }
    assert ranges[..|ranges|] == ranges;
    var out := ListMembers(ranges, min, max);
    r := Uids(out);
  }

  lemma CardinalityOfNone(ranges: seq<UidRange>)
    ensures Cardinality(ranges[..0]) == 0
  {
  }

  lemma CardinalityStep(ranges: seq<UidRange>, i: nat)
    requires i < |ranges|
    ensures Cardinality(ranges[..i + 1]) == Cardinality(ranges[..i]) + ranges[i].stop - ranges[i].start + 1
  {
    assert ranges[..i + 1][..i] == ranges[..i];
  }

  lemma TooMany(ranges: seq<UidRange>, i: nat, min: nat, max: nat)
    requires i < |ranges|
    ensures WellFormedSet(ranges, min, max) ==>
              Cardinality(ranges[..i]) + ranges[i].stop - ranges[i].start + 1 <= Cardinality(ranges)
  {
    if WellFormedSet(ranges, min, max) {
      CardinalityGrows(ranges, i + 1, min, max);
      assert ranges[..i + 1][..i] == ranges[..i];
    }
  }

  ghost predicate Ascends(uids: seq<nat>) {
    forall i, j :: 0 <= i < j < |uids| ==> uids[i] < uids[j]
  }

  method ListMembers(ranges: seq<UidRange>, min: nat, max: nat) returns (out: seq<nat>)
    requires WellFormedSet(ranges, min, max)
    ensures |out| == Cardinality(ranges) && Ascends(out) && forall u: nat :: u in out <==> InSet(ranges, u)
  {
    out := [];
    for i := 0 to |ranges|
      invariant |out| == Cardinality(ranges[..i]) && Ascends(out)
      invariant forall u: nat :: u in out <==> InSet(ranges[..i], u)
      invariant i < |ranges| ==> forall k :: 0 <= k < |out| ==> out[k] < ranges[i].start
    {
      ghost var before, seen := out, ranges[..i + 1];
      assert seen[..i] == ranges[..i];
      var uid := ranges[i].start;
      while uid <= ranges[i].stop
        invariant ranges[i].start <= uid <= ranges[i].stop + 1
        invariant |out| == |before| + uid - ranges[i].start && Ascends(out)
        invariant forall k :: 0 <= k < |out| ==> out[k] < uid
        invariant forall u: nat :: u in out <==> u in before || ranges[i].start <= u < uid
      {
        out := out + [uid];
        uid := uid + 1;
      }
      forall u: nat ensures InSet(seen, u) <==> InSet(ranges[..i], u) || ranges[i].start <= u <= ranges[i].stop {
        InSetSnoc(ranges, i, u);
      }
    }
    assert ranges[..|ranges|] == ranges;
  }

  lemma InSetSnoc(ranges: seq<UidRange>, i: nat, u: nat)
    requires i < |ranges|
    ensures InSet(ranges[..i + 1], u) <==> InSet(ranges[..i], u) || ranges[i].start <= u <= ranges[i].stop
  {
    var seen := ranges[..i + 1];
    if InSet(ranges[..i], u) {
      var k :| 0 <= k < i && ranges[..i][k].start <= u <= ranges[..i][k].stop;
      assert seen[k].start <= u <= seen[k].stop;
    }
    if InSet(seen, u) {
      var k :| 0 <= k < i + 1 && seen[k].start <= u <= seen[k].stop;
      assert k < i ==> ranges[..i][k].start <= u <= ranges[..i][k].stop;
    }
    assert seen[i] == ranges[i];
  }

  // --- One page -----------------------------------------------------------------------------------

  /** The matching UIDs in `(low, high]`, newest first. */
  function Descending(matching: set<nat>, low: nat, high: nat): (uids: seq<nat>)
    ensures forall u: nat :: u in uids <==> u in matching && low < u <= high
    decreases high
  {
    if high <= low then []
    else (if high in matching then [high] else []) + Descending(matching, low, high - 1)
  }

  ghost predicate Falls(uids: seq<nat>) {
    forall i, j :: 0 <= i < j < |uids| ==> uids[i] > uids[j]
  }

  lemma {:induction false} DescendingFalls(matching: set<nat>, low: nat, high: nat)
    ensures Falls(Descending(matching, low, high))
    decreases high
  {
    if low < high {
      DescendingFalls(matching, low, high - 1);
      var rest := Descending(matching, low, high - 1);
      assert forall i :: 0 <= i < |rest| ==> rest[i] in rest;
    }
  }

  /** A falling list is determined by its members. */
  lemma {:induction false} FallsUnique(a: seq<nat>, b: seq<nat>)
    requires Falls(a) && Falls(b) && forall u :: u in a <==> u in b
    ensures a == b
    decreases |a|
  {
    if a == [] {
      Inhabited(b);
    } else {
      assert a[0] in b && b != [] && b[0] in a;
      assert a[0] == b[0];
      forall u ensures u in a[1..] <==> u in b[1..] {
        TailMembers(a, u);
        TailMembers(b, u);
      }
      FallsUnique(a[1..], b[1..]);
      assert a == [a[0]] + a[1..] && b == [b[0]] + b[1..];
    }
  }

  lemma Inhabited(a: seq<nat>)
    ensures a == [] || exists u :: u in a
  {
    if a != [] { assert a[0] in a; }
  }

  lemma TailMembers(a: seq<nat>, u: nat)
    requires Falls(a) && a != []
    ensures u in a[1..] <==> u in a && u != a[0]
  {
    assert a == [a[0]] + a[1..];
  }

  lemma {:induction false} DescendingSplit(matching: set<nat>, low: nat, mid: nat, high: nat)
    requires low <= mid <= high
    ensures Descending(matching, low, high) == Descending(matching, mid, high) + Descending(matching, low, mid)
    decreases high
  {
    if mid < high { DescendingSplit(matching, low, mid, high - 1); }
  }

  /** Cutting a falling list after its k-th member stops just below that member. */
  lemma {:induction false} DescendingPrefix(matching: set<nat>, low: nat, high: nat, k: nat)
    requires 0 < k <= |Descending(matching, low, high)|
    ensures var all := Descending(matching, low, high);
            all[k - 1] > low && all[..k] == Descending(matching, all[k - 1] - 1, high)
    decreases high
  {
    hide Descending;
    var all := Descending(matching, low, high);
    DescendingStep(matching, low, high);
    assert all[k - 1] in all;
    if high in matching {
      if k == 1 {
        DescendingStep(matching, high - 1, high);
        DescendingStep(matching, high - 1, high - 1);
      } else {
        DescendingPrefix(matching, low, high - 1, k - 1);
        DescendingStep(matching, all[k - 1] - 1, high);
      }
    } else {
      DescendingPrefix(matching, low, high - 1, k);
      DescendingStep(matching, all[k - 1] - 1, high);
    }
  }

  lemma DescendingStep(matching: set<nat>, low: nat, high: nat)
    ensures high <= low ==> Descending(matching, low, high) == []
    ensures low < high && high in matching ==> Descending(matching, low, high) == [high] + Descending(matching, low, high - 1)
    ensures low < high && high !in matching ==> Descending(matching, low, high) == Descending(matching, low, high - 1)
  {
  }

  datatype SearchResult = SearchResult(messages: seq<nat>, uidValidity: nat, next: nat, scanLimitReached: bool, truncated: bool)

  datatype SearchInput = SearchInput(beforeUid: nat, uidValidity: nat, limit: int)

  datatype SearchOutcome = Page(result: SearchResult) | Failed

  /** A fixed mailbox: the UIDs matching the query, its next UID and UIDVALIDITY. */
  datatype Mailbox = Mailbox(matching: set<nat>, uidNext: nat, uidValidity: nat) {
    ghost predicate Valid() {
      1 <= uidNext && 1 <= uidValidity && forall u :: u in matching ==> 1 <= u < uidNext
    }
  }

  /** The server answers each window with its matching UIDs, in any order, repeats allowed. */
  ghost predicate Answers(search: (nat, nat) -> seq<nat>, box: Mailbox) {
    forall low: nat, high: nat, u: nat :: AnswersAt(search, box, low, high, u)
  }

  ghost predicate AnswersAt(search: (nat, nat) -> seq<nat>, box: Mailbox, low: nat, high: nat, u: nat) {
    u in search(low, high) <==> u in box.matching && low <= u <= high
  }

  predicate Accepts(input: SearchInput, box: Mailbox) {
    && 0 <= input.limit <= MAX_LIMIT
    && (input.beforeUid != 0 ==> input.uidValidity == box.uidValidity)
  }

  /** Where a page starts scanning. */
  function Top(input: SearchInput, box: Mailbox): nat
    requires box.uidNext >= 1
  {
    if input.beforeUid != 0 && input.beforeUid - 1 < box.uidNext - 1 then input.beforeUid - 1 else box.uidNext - 1
  }

  /** The highest UID left for the pages after cursor `next`; 0 means nothing is left. */
  function Resume(next: nat): nat {
    if next == 0 then 0 else next - 1
  }

  function EffectiveLimit(limit: int): (effective: int)
    ensures limit == 0 ==> effective == 20
    ensures limit != 0 ==> effective == limit
  {
    if limit == 0 then 20 else limit
  }

  lemma SortedInsert(sorted: seq<nat>, at: nat, x: nat)
    requires Falls(sorted) && at <= |sorted| && x !in sorted
    requires forall i :: 0 <= i < at ==> sorted[i] > x
    requires at < |sorted| ==> sorted[at] < x
    ensures Falls(sorted[..at] + [x] + sorted[at..])
    ensures forall u :: u in sorted[..at] + [x] + sorted[at..] <==> u in sorted || u == x
  {
    var all := sorted[..at] + [x] + sorted[at..];
    forall i, j | 0 <= i < j < |all| ensures all[i] > all[j] {
      assert at < j ==> all[j] == sorted[j - 1];
      assert at < i ==> all[i] == sorted[i - 1];
    }
    assert sorted == sorted[..at] + sorted[at..];
  }

  /** The library sort, newest first. */
  method SortDescending(uids: seq<nat>) returns (sorted: seq<nat>)
    requires Distinct(uids)
    ensures Falls(sorted) && |sorted| == |uids| && forall u :: u in sorted <==> u in uids
  {
    sorted := [];
    for i := 0 to |uids|
      invariant Falls(sorted) && |sorted| == i
      invariant forall u :: u in sorted <==> u in uids[..i]
    {
      assert uids[..i + 1] == uids[..i] + [uids[i]];
      assert uids[i] !in uids[..i];
      var at := 0;
      while at < |sorted| && sorted[at] > uids[i]
        invariant at <= |sorted| && forall k :: 0 <= k < at ==> sorted[k] > uids[i]
      {
        at := at + 1;
      }
      assert at < |sorted| ==> sorted[at] in sorted;
      SortedInsert(sorted, at, uids[i]);
      sorted := sorted[..at] + [uids[i]] + sorted[at..];
    }
    assert uids[..|uids|] == uids;
  }

  /** Everything matching in `(high, top]` has been found. */
  ghost predicate FoundAbove(box: Mailbox, found: seq<nat>, high: nat, top: nat) {
    forall u: nat :: u in found <==> u in box.matching && high < u <= top
  }

  ghost function Members(uids: seq<nat>): set<nat> {
    set u | u in uids
  }

  lemma {:induction false} DistinctMembers(uids: seq<nat>)
    requires Distinct(uids)
    ensures |Members(uids)| == |uids|
  {
    if uids == [] {
      assert Members(uids) == {};
    } else {
      var n := |uids| - 1;
      DistinctMembers(uids[..n]);
      assert uids[n] !in uids[..n];
      assert Members(uids) == Members(uids[..n]) + {uids[n]};
    }
  }

  lemma FallingIsDistinct(uids: seq<nat>)
    requires Falls(uids)
    ensures Distinct(uids)
  {
  }

  /** As many are found as match. */
  lemma FoundCount(box: Mailbox, found: seq<nat>, high: nat, top: nat)
    requires Distinct(found) && FoundAbove(box, found, high, top)
    ensures |found| == |Descending(box.matching, high, top)|
  {
    hide Descending, Distinct, Falls;
    var all := Descending(box.matching, high, top);
    DescendingFalls(box.matching, high, top);
    FallingIsDistinct(all);
    DistinctMembers(found);
    DistinctMembers(all);
    assert Members(found) == Members(all);
  }

  lemma MoreBelow(box: Mailbox, low: nat, mid: nat, high: nat)
    requires low <= mid <= high
    ensures |Descending(box.matching, mid, high)| <= |Descending(box.matching, low, high)|
  {
    DescendingSplit(box.matching, low, mid, high);
  }

  /** The scan runs into its limit exactly when nine whole windows hold no more than a page. */
  ghost predicate ScanLimited(box: Mailbox, top: nat, limit: nat) {
    top > 50_000 && |Descending(box.matching, top - 45_000, top)| <= limit
  }

  /** The windowed scan; it fails only when the server answers outside the window asked for. */
  method ScanWindows(search: (nat, nat) -> seq<nat>, box: Mailbox, top: nat, limit: nat)
    returns (failed: bool, found: seq<nat>, high: nat)
    ensures failed ==> !Answers(search, box)
    ensures !failed && Answers(search, box) ==> FoundAbove(box, found, high, top)
    ensures !failed ==> high <= top <= high + MAX_SCANNED && (top > 0 ==> high < top)
    ensures !failed ==> high == 0 || top - high == MAX_SCANNED || |found| > limit
    ensures !failed && |found| > limit ==> high < top
    ensures !failed && Answers(search, box) ==> (top - high == MAX_SCANNED && high > 0 <==> ScanLimited(box, top, limit))
    ensures Distinct(found)
  {
    hide Descending;
    found, high, failed := [], top, false;
    var scanned := 0;
    var seen: set<nat> := {};
    while high > 0 && scanned < MAX_SCANNED && |found| <= limit
      invariant 0 <= high <= top && scanned == top - high <= MAX_SCANNED
      invariant Answers(search, box) ==> FoundAbove(box, found, high, top)
      invariant forall u :: u in seen <==> u in found
      invariant high == top ==> found == []
      invariant high == 0 || scanned % WINDOW == 0
      invariant Answers(search, box) && scanned > 45_000 ==> |Descending(box.matching, top - 45_000, top)| <= limit
      invariant Distinct(found)
      decreases high
    {
      var remaining := MAX_SCANNED - scanned;
      var width := if remaining < WINDOW then remaining else WINDOW;
      var low := if high >= width then high - width + 1 else 1;
      var uids := search(low, high);
      ghost var before := found;
      if Answers(search, box) { FoundCount(box, found, high, top); }
      for i := 0 to |uids|
        invariant forall u :: u in found <==> u in before || u in uids[..i]
        invariant forall u :: u in seen <==> u in found
        invariant Distinct(found)
      {
        assert uids[..i + 1] == uids[..i] + [uids[i]];
        assert Answers(search, box) ==> AnswersAt(search, box, low, high, uids[i]);
        if uids[i] < low || uids[i] > high || uids[i] == 0 {
          failed := true;
          return;
        }
        if uids[i] !in seen {
          seen := seen + {uids[i]};
          found := found + [uids[i]];
        }
      }
      assert uids[..|uids|] == uids;
      assert Answers(search, box) ==> forall u: nat :: u in uids <==> u in box.matching && low <= u <= high by {
        if Answers(search, box) {
          forall u: nat ensures u in uids <==> u in box.matching && low <= u <= high {
            assert AnswersAt(search, box, low, high, u);
          }
        }
      }
      scanned := scanned + (high - low) + 1;
      high := if low == 1 then 0 else low - 1;
    }
    if Answers(search, box) && top > MAX_SCANNED && high >= top - 45_000 {
      FoundCount(box, found, high, top);
      MoreBelow(box, top - 45_000, high, top);
    }
  }

  function Fits(size: SearchResult -> nat, r: SearchResult): bool {
    size(r) <= MAX_RESULT_BYTES
  }

  /** Any one matching summary fits the byte limit on its own. */
  ghost predicate SinglesFit(size: SearchResult -> nat, box: Mailbox) {
    forall u, s, t :: u in box.matching ==> FitsAlone(size, box, u, s, t)
  }

  /** A page that fits holds only summaries that fit on their own. */
  ghost predicate PageHoldsSingles(size: SearchResult -> nat) {
    forall r: SearchResult, u :: u in r.messages && Fits(size, r) ==> Fits(size, r.(messages := [u]))
  }

  /** A summary on its own, under the flags of its page, fits. */
  predicate FitsAlone(size: SearchResult -> nat, box: Mailbox, u: nat, scanLimit: bool, truncated: bool) {
    Fits(size, SearchResult([u], box.uidValidity, 0, scanLimit, truncated))
  }

  /** Whether a single summary fits does not hang on the few bytes of the page's two flags. */
  ghost predicate FlagsDoNotMatter(size: SearchResult -> nat, box: Mailbox) {
    forall u, s, t, s', t' :: u in box.matching ==> FitsAlone(size, box, u, s, t) == FitsAlone(size, box, u, s', t')
  }

  /** Every matching summary fits under the flags of some page. */
  ghost predicate EachFitsSomehow(size: SearchResult -> nat, box: Mailbox, uids: seq<nat>) {
    forall u :: u in uids ==> exists s, t :: FitsAlone(size, box, u, s, t)
  }

  /** A page with one more message would not fit. */
  ghost predicate OneMoreTooBig(size: SearchResult -> nat, messages: seq<nat>) {
    exists longer: SearchResult ::
      messages <= longer.messages && |longer.messages| == |messages| + 1 && !Fits(size, longer)
  }

  /** Drops oldest summaries until the page fits, and no further. */
  method TrimToFit(size: SearchResult -> nat, r: SearchResult) returns (trimmed: SearchResult, cut: bool)
    ensures trimmed == r.(messages := trimmed.messages, truncated := trimmed.truncated)
    ensures trimmed.messages <= r.messages
    ensures cut <==> trimmed.messages != r.messages
    ensures trimmed.truncated == (r.truncated || cut)
    ensures trimmed.messages == [] || Fits(size, trimmed)
    ensures cut ==> OneMoreTooBig(size, trimmed.messages)
    ensures trimmed.messages == [] ==> r.messages == [] || exists t :: !Fits(size, r.(messages := r.messages[..1], truncated := t))
  {
    trimmed, cut := r, false;
    while size(trimmed) > MAX_RESULT_BYTES && |trimmed.messages| > 0
      invariant trimmed == r.(messages := trimmed.messages, truncated := trimmed.truncated)
      invariant trimmed.messages <= r.messages
      invariant cut <==> trimmed.messages != r.messages
      invariant trimmed.truncated == (r.truncated || cut)
      invariant cut ==> OneMoreTooBig(size, trimmed.messages)
      invariant trimmed.messages == [] ==> r.messages == [] || exists t :: !Fits(size, r.(messages := r.messages[..1], truncated := t))
      decreases |trimmed.messages|
    {
      if |trimmed.messages| == 1 {
        assert trimmed.messages == r.messages[..1];
        assert !Fits(size, r.(messages := r.messages[..1], truncated := trimmed.truncated));
      }
      assert !Fits(size, trimmed);
      trimmed := trimmed.(messages := trimmed.messages[..|trimmed.messages| - 1], truncated := true);
      cut := true;
    }
  }

  // --- Sizes as serialization makes them -----------------------------------------------------------

  function TotalWeight(weight: nat -> nat, uids: seq<nat>): nat {
    if uids == [] then 0 else TotalWeight(weight, uids[..|uids| - 1]) + weight(uids[|uids| - 1])
  }

  function PageSize(envelope: SearchResult -> nat, weight: nat -> nat, r: SearchResult): nat {
    envelope(r.(messages := [])) + TotalWeight(weight, r.messages)
  }

  /** A page's size: what surrounds the messages plus one weight per summary, separator included. */
  function SummedSize(envelope: SearchResult -> nat, weight: nat -> nat): SearchResult -> nat {
    (r: SearchResult) => PageSize(envelope, weight, r)
  }

  lemma {:induction false} WeightOfOne(weight: nat -> nat, uids: seq<nat>, u: nat)
    requires u in uids
    ensures weight(u) <= TotalWeight(weight, uids)
  {
    var n := |uids| - 1;
    if u != uids[n] {
      assert uids == uids[..n] + [uids[n]];
      WeightOfOne(weight, uids[..n], u);
    }
  }

  /** Serialized pages hold only singles that fit. */
  lemma SummedHoldsSingles(envelope: SearchResult -> nat, weight: nat -> nat)
    ensures PageHoldsSingles(SummedSize(envelope, weight))
  {
    var size := SummedSize(envelope, weight);
    forall r: SearchResult, u | u in r.messages && Fits(size, r) ensures Fits(size, r.(messages := [u])) {
      WeightOfOne(weight, r.messages, u);
      assert [u][..0] == [] && TotalWeight(weight, [u]) == weight(u);
      assert r.(messages := [u]).(messages := []) == r.(messages := []);
    }
  }

  /** The page lists exactly the matching UIDs between its cursor and the next. */
  ghost predicate Exact(box: Mailbox, top: nat, r: SearchResult) {
    Resume(r.next) <= top && r.messages == Descending(box.matching, Resume(r.next), top)
  }

  /** The page dropped everything it found because not even one summary fitted. */
  ghost predicate Dropped(box: Mailbox, top: nat, r: SearchResult) {
    Resume(r.next) <= top && r.messages == [] && Descending(box.matching, Resume(r.next), top) != []
  }

  /** What every page promises. */
  ghost predicate IsPage(box: Mailbox, input: SearchInput, size: SearchResult -> nat, r: SearchResult)
    requires box.uidNext >= 1
  {
    var top := Top(input, box);
    && r.uidValidity == box.uidValidity
    && (r.next > 0 ==> Resume(r.next) < top)
    && (Exact(box, top, r) <==> !Dropped(box, top, r))
    && (SinglesFit(size, box) ==> Exact(box, top, r))
    && |r.messages| <= EffectiveLimit(input.limit)
    && (r.messages == [] || Fits(size, r.(next := 0)))
    && (r.next > 0 ==> r.truncated || r.scanLimitReached)
    && (r.next > 0 && |r.messages| < EffectiveLimit(input.limit) ==>
          r.scanLimitReached || OneMoreTooBig(size, r.messages))
    && (r.scanLimitReached <==> ScanLimited(box, top, EffectiveLimit(input.limit)))
    && (r.truncated ==> exists u :: u in box.matching && u <= top && u !in r.messages)
  }

  /**
   One page. The cursor strictly falls; the page is exact unless it dropped all it
   found, which cannot happen when single summaries fit.
   */
  method SearchMessages(
    search: (nat, nat) -> seq<nat>, box: Mailbox, input: SearchInput, size: SearchResult -> nat)
    returns (outcome: SearchOutcome)
    requires box.Valid() && Answers(search, box)
    ensures outcome.Failed? <==> !Accepts(input, box)
    ensures outcome.Page? ==> IsPage(box, input, size, outcome.result)
  {
    hide Answers, Descending, ScanLimited, IsPage, Falls, Distinct;
    if !(0 <= input.limit <= MAX_LIMIT) || (input.beforeUid != 0 && input.uidValidity != box.uidValidity) {
      return Failed;
    }
    var limit := EffectiveLimit(input.limit);
    var top := Top(input, box);
    var failed, found, high := ScanWindows(search, box, top, limit);
    if failed {
      return Failed;
    }
    var sorted := SortDescending(found);
    SortedIsDescending(box, sorted, high, top);
    var countTruncated := |sorted| > limit;
    var page := if countTruncated then sorted[..limit] else sorted;
    var scanLimit := top - high == MAX_SCANNED && high > 0;
    hide OneMoreTooBig;
    var r, byteTruncated := TrimToFit(size, SearchResult(page, box.uidValidity, 0, scanLimit, countTruncated));
    if countTruncated || byteTruncated {
      if |r.messages| > 0 {
        r := r.(next := r.messages[|r.messages| - 1]);
      } else if high > 0 {
        r := r.(next := high + 1);
      }
    } else if scanLimit {
      r := r.(next := high + 1);
    }
    PageAssembled(box, input, size, sorted, high, scanLimit, countTruncated, byteTruncated, r);
    outcome := Page(r);
  }

  /** What the page is made of makes it a page. */
  lemma PageAssembled(
    box: Mailbox, input: SearchInput, size: SearchResult -> nat, sorted: seq<nat>, high: nat,
    scanLimit: bool, countTruncated: bool, byteTruncated: bool, r: SearchResult)
    requires box.Valid() && Accepts(input, box) && Falls(sorted)
    requires var top, limit := Top(input, box), EffectiveLimit(input.limit);
      && sorted == Descending(box.matching, high, top) && high <= top && (top > 0 ==> high < top)
      && (high == 0 || scanLimit || countTruncated) && countTruncated == (|sorted| > limit)
      && (scanLimit <==> ScanLimited(box, top, limit)) && (scanLimit ==> high > 0)
      && (var page := if countTruncated then sorted[..limit] else sorted;
          && r.messages <= page && (byteTruncated <==> r.messages != page)
          && (r.messages == [] ==>
                page == [] || exists t :: !Fits(size, SearchResult(page[..1], box.uidValidity, 0, scanLimit, t))))
    requires r.uidValidity == box.uidValidity && r.scanLimitReached == scanLimit
    requires r.truncated == (countTruncated || byteTruncated)
    requires r.messages == [] || Fits(size, r.(next := 0))
    requires byteTruncated ==> OneMoreTooBig(size, r.messages)
    requires r.next == if (countTruncated || byteTruncated) && |r.messages| > 0 then r.messages[|r.messages| - 1]
                       else if countTruncated || byteTruncated || scanLimit then (if high > 0 then high + 1 else 0)
                       else 0
    ensures IsPage(box, input, size, r)
  {
    hide Descending, ScanLimited, Exact, Dropped, SinglesFit, Fits, OneMoreTooBig;
    var top, limit := Top(input, box), EffectiveLimit(input.limit);
    PageIsExact(box, size, sorted, high, top, limit, scanLimit, countTruncated, byteTruncated, r);
    if r.truncated {
      LeftOut(sorted, r.messages);
      assert sorted[|r.messages|] in Descending(box.matching, high, top);
    }
  }

  lemma LeftOut(sorted: seq<nat>, listed: seq<nat>)
    requires Falls(sorted) && listed <= sorted && |listed| < |sorted|
    ensures sorted[|listed|] in sorted && sorted[|listed|] !in listed
  {
  }

  lemma SortedIsDescending(box: Mailbox, sorted: seq<nat>, high: nat, top: nat)
    requires Falls(sorted) && FoundAbove(box, sorted, high, top)
    ensures sorted == Descending(box.matching, high, top)
  {
    hide Descending;
    DescendingFalls(box.matching, high, top);
    FallsUnique(sorted, Descending(box.matching, high, top));
  }

  lemma PageIsExact(
    box: Mailbox, size: SearchResult -> nat, sorted: seq<nat>, high: nat, top: nat, limit: nat,
    scanLimit: bool, countTruncated: bool, byteTruncated: bool, r: SearchResult)
    requires sorted == Descending(box.matching, high, top) && 1 <= limit && high <= top && (top > 0 ==> high < top)
    requires high == 0 || scanLimit || countTruncated
    requires countTruncated == (|sorted| > limit)
    requires var page := if countTruncated then sorted[..limit] else sorted;
      && r.messages <= page && (byteTruncated <==> r.messages != page)
      && (r.messages == [] ==>
            page == [] || exists t :: !Fits(size, SearchResult(page[..1], box.uidValidity, 0, scanLimit, t)))
    requires scanLimit ==> high > 0
    requires r.next == if (countTruncated || byteTruncated) && |r.messages| > 0 then r.messages[|r.messages| - 1]
                       else if countTruncated || byteTruncated || scanLimit then (if high > 0 then high + 1 else 0)
                       else 0
    ensures r.next > 0 ==> Resume(r.next) < top
    ensures Exact(box, top, r) <==> !Dropped(box, top, r)
    ensures SinglesFit(size, box) ==> Exact(box, top, r)
  {
    hide Descending, Fits;
    if (countTruncated || byteTruncated) && |r.messages| > 0 {
      var k := |r.messages|;
      assert r.messages == sorted[..k];
      assert sorted[k - 1] in sorted;
      DescendingPrefix(box.matching, high, top, k);
    } else if r.messages == [] && sorted != [] {
      var page := if countTruncated then sorted[..limit] else sorted;
      assert page[..1] == [sorted[0]];
      assert sorted[0] in sorted;
      var t :| !Fits(size, SearchResult(page[..1], box.uidValidity, 0, scanLimit, t));
      assert !FitsAlone(size, box, sorted[0], scanLimit, t);
    }
  }

  // --- All pages -------------------------------------------------------------------------------------

  /** Some matching UID above `top` is missing from what has been collected. */
  ghost predicate Missed(box: Mailbox, collected: seq<nat>, top: nat) {
    exists u :: u in box.matching && u > top && u !in collected
  }

  lemma PageFitsSomehow(box: Mailbox, input: SearchInput, size: SearchResult -> nat, r: SearchResult)
    requires box.uidNext >= 1 && IsPage(box, input, size, r) && PageHoldsSingles(size)
    ensures EachFitsSomehow(size, box, r.messages)
  {
    hide Exact, Dropped, SinglesFit, OneMoreTooBig, Top;
    var fitting := r.(next := 0);
    forall u | u in r.messages ensures exists s, t :: FitsAlone(size, box, u, s, t) {
      assert Fits(size, fitting.(messages := [u]));
      assert FitsAlone(size, box, u, r.scanLimitReached, r.truncated);
    }
  }

  lemma SomehowMeansAlways(box: Mailbox, size: SearchResult -> nat, uids: seq<nat>)
    requires FlagsDoNotMatter(size, box) && EachFitsSomehow(size, box, uids)
    requires forall u :: u in box.matching ==> u in uids
    ensures SinglesFit(size, box)
  {
    hide FitsAlone;
    forall u, s, t | u in box.matching ensures FitsAlone(size, box, u, s, t) {
      var s', t' :| FitsAlone(size, box, u, s', t');
    }
  }

  /**
   Follows the cursor to the end. The collected UIDs are all the matching ones, newest
   first, exactly when every matching summary fits a page on its own.
   */
  method CollectPages(search: (nat, nat) -> seq<nat>, box: Mailbox, limit: int, size: SearchResult -> nat)
    returns (collected: seq<nat>, ghost anyDropped: bool)
    requires box.Valid() && Answers(search, box) && 0 <= limit <= MAX_LIMIT
    ensures !anyDropped <==> collected == Descending(box.matching, 0, box.uidNext - 1)
    ensures SinglesFit(size, box) ==> collected == Descending(box.matching, 0, box.uidNext - 1)
    ensures PageHoldsSingles(size) ==> EachFitsSomehow(size, box, collected)
    ensures PageHoldsSingles(size) && FlagsDoNotMatter(size, box) ==>
              (collected == Descending(box.matching, 0, box.uidNext - 1) <==> SinglesFit(size, box))
  {
    hide Answers, Descending, SinglesFit, Exact, Dropped, Missed, FitsAlone, PageHoldsSingles, FlagsDoNotMatter;
    collected, anyDropped := [], false;
    var input := SearchInput(0, 0, limit);
    ghost var top := box.uidNext - 1;
    EmptyAbove(box);
    while true
      invariant Accepts(input, box) && input.limit == limit && top == Top(input, box) <= box.uidNext - 1
      invariant !anyDropped ==> collected == Descending(box.matching, top, box.uidNext - 1)
      invariant anyDropped ==> Missed(box, collected, top)
      invariant SinglesFit(size, box) ==> !anyDropped
      invariant PageHoldsSingles(size) ==> EachFitsSomehow(size, box, collected)
      decreases Top(input, box)
    {
      var outcome := SearchMessages(search, box, input, size);
      var r := outcome.result;
      if PageHoldsSingles(size) {
        PageFitsSomehow(box, input, size, r);
      }
      if anyDropped {
        StillMissed(box, collected, top, r);
      } else if Exact(box, top, r) {
        ExactExtends(box, collected, top, r);
      } else {
        FreshlyMissed(box, collected, top, r);
      }
      anyDropped := anyDropped || Dropped(box, top, r);
      collected := collected + r.messages;
      top := Resume(r.next);
      if r.next == 0 {
        if anyDropped {
          MissedIsNotAll(box, collected);
        } else if PageHoldsSingles(size) && FlagsDoNotMatter(size, box) {
          SomehowMeansAlways(box, size, collected);
        }
        return;
      }
      input := SearchInput(r.next, box.uidValidity, limit);
    }
  }

  lemma ExactExtends(box: Mailbox, collected: seq<nat>, top: nat, r: SearchResult)
    requires box.uidNext >= 1 && top <= box.uidNext - 1 && Exact(box, top, r)
    requires collected == Descending(box.matching, top, box.uidNext - 1)
    ensures collected + r.messages == Descending(box.matching, Resume(r.next), box.uidNext - 1)
  {
    hide Descending;
    DescendingSplit(box.matching, Resume(r.next), top, box.uidNext - 1);
  }

  lemma StillMissed(box: Mailbox, collected: seq<nat>, top: nat, r: SearchResult)
    requires Missed(box, collected, top) && (Exact(box, top, r) || Dropped(box, top, r))
    ensures Missed(box, collected + r.messages, Resume(r.next))
  {
    hide Descending;
    var u :| u in box.matching && u > top && u !in collected;
    assert u !in r.messages;
  }

  lemma FreshlyMissed(box: Mailbox, collected: seq<nat>, top: nat, r: SearchResult)
    requires box.uidNext >= 1 && Dropped(box, top, r) && collected == Descending(box.matching, top, box.uidNext - 1)
    ensures Missed(box, collected + r.messages, Resume(r.next))
  {
    hide Descending;
    var lost := Descending(box.matching, Resume(r.next), top);
    var u := lost[0];
    assert u in lost;
    assert u !in collected + r.messages;
  }

  lemma MissedIsNotAll(box: Mailbox, collected: seq<nat>)
    requires box.Valid() && Missed(box, collected, 0)
    ensures collected != Descending(box.matching, 0, box.uidNext - 1)
  {
    hide Descending;
    var u :| u in box.matching && u > 0 && u !in collected;
    assert u in Descending(box.matching, 0, box.uidNext - 1);
  }

  lemma EmptyAbove(box: Mailbox)
    requires box.uidNext >= 1
    ensures Descending(box.matching, box.uidNext - 1, box.uidNext - 1) == []
  {
  }

  /**
   One message whose summary alone exceeds the byte limit, as a hundred addresses with
   names of 4 KiB do: whatever page the search returns for it, the message is dropped.
   */
  lemma OversizedSummaryIsDropped(r: SearchResult)
    ensures var box, input := Mailbox({1}, 2, 1), SearchInput(0, 0, 0);
            var size := SummedSize(page => 64, u => 100 * 4096);
            && box.Valid() && PageHoldsSingles(size) && FlagsDoNotMatter(size, box) && !SinglesFit(size, box)
            && (IsPage(box, input, size, r) ==> Dropped(box, Top(input, box), r))
  {
    var box, input := Mailbox({1}, 2, 1), SearchInput(0, 0, 0);
    var envelope, weight := (page: SearchResult) => 64, (u: nat) => 100 * 4096;
    var size := SummedSize(envelope, weight);
    SummedHoldsSingles(envelope, weight);
    forall u, s, t ensures !FitsAlone(size, box, u, s, t) {
      WeightOfOne(weight, [u], u);
    }
    assert !FitsAlone(size, box, 1, false, false);
    if IsPage(box, input, size, r) {
      if r.messages != [] {
        WeightOfOne(weight, r.messages, r.messages[0]);
      }
      assert r.messages == [];
      DescendingStep(box.matching, 0, 1);
    }
  }
}
