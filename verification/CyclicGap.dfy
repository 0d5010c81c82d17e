/**
 Gaps of a periodic yes/no signal: the finite scan over one cycle decides
 reachability and the longest empty run for all time.
 */
module CyclicGap {
  import opened Arithmetic

  /** Every window of `gap + 1` consecutive steps holds a hit, and some window of `gap` steps holds none. */
  ghost predicate IsLongestGap(fires: nat -> bool, gap: nat) {
    && (forall n: nat :: HitWithin(fires, n, gap))
    && (exists n: nat :: EmptyRun(fires, n, gap))
  }

  ghost predicate HitWithin(fires: nat -> bool, from: nat, gap: nat) {
    exists k: nat :: from <= k <= from + gap && fires(k)
  }

  ghost predicate EmptyRun(fires: nat -> bool, from: nat, length: nat) {
    forall k: nat :: from <= k < from + length ==> !fires(k)
  }

  ghost predicate Never(fires: nat -> bool) {
    forall n: nat :: !fires(n)
  }

  /** The signal reads the table cyclically. */
  ghost predicate Tabulates(fires: nat -> bool, states: seq<bool>) {
    |states| > 0 && forall n: nat :: fires(n) == states[n % |states|]
  }

  /** The longest gap is unique: no two lengths qualify. */
  lemma LongestGapUnique(fires: nat -> bool, a: nat, b: nat)
    requires IsLongestGap(fires, a) && IsLongestGap(fires, b)
    ensures a == b
  {
    GapBound(fires, a, b);
    GapBound(fires, b, a);
  }

  lemma GapBound(fires: nat -> bool, a: nat, b: nat)
    requires IsLongestGap(fires, a) && IsLongestGap(fires, b)
    ensures a <= b
  {
    var n: nat :| EmptyRun(fires, n, a);
    assert HitWithin(fires, n, b);
  }

  /** Euclid's algorithm, as a specification. */
  function Gcd(a: nat, b: nat): (g: nat)
    requires 0 < a || 0 < b
    ensures 0 < g
    decreases b
  {
    if b == 0 then a else Gcd(b, a % b)
  }

  /** The result divides both arguments. */
  lemma {:induction false} GcdDivides(a: nat, b: nat) returns (x: nat, y: nat)
    requires 0 < a || 0 < b
    ensures Gcd(a, b) * x == a && Gcd(a, b) * y == b
    decreases b
  {
    if b == 0 {
      x, y := 1, 0;
    } else {
      var g, q := Gcd(b, a % b), a / b;
      var u, v := GcdDivides(b, a % b);
      x, y := q * u + v, u;
      calc {
        g * (q * u + v);
        q * (g * u) + g * v;
        q * b + a % b;
        a;
      }
    }
  }

  /** Every common divisor divides the result. */
  lemma {:induction false} GcdGreatest(a: nat, b: nat, d: nat, x: int, y: int) returns (z: int)
    requires (0 < a || 0 < b) && a == d * x && b == d * y
    ensures Gcd(a, b) == d * z
    decreases b
  {
    if b == 0 {
      z := x;
    } else {
      var q := a / b;
      calc {
        a % b;
        a - q * b;
        d * x - q * (d * y);
        d * (x - q * y);
      }
      z := GcdGreatest(b, a % b, d, y, x - q * y);
    }
  }

  method GreatestCommonDivisor(a: nat, b: nat) returns (g: nat)
    requires 0 < a || 0 < b
    ensures g == Gcd(a, b)
  {
    var x: nat, y: nat := a, b;
    while y != 0
      invariant 0 < x || 0 < y
      invariant Gcd(x, y) == Gcd(a, b)
      decreases y
    {
      x, y := y, x % y;
    }
    g := x;
  }

  /** `interval` steps taken `base / gcd` times are a whole number of bases. */
  lemma CycleClosesUp(interval: nat, base: nat) returns (turns: nat)
    requires 0 < interval && 0 < base
    ensures 0 < base / Gcd(interval, base) <= base
    ensures interval * (base / Gcd(interval, base)) == base * turns
  {
    var g := Gcd(interval, base);
    var x, y := GcdDivides(interval, base);
    Remainder(g, y, 0);
    turns := x;
    Exchange(g, x, y);
    ScaleUp(y, g);
  }

  lemma Exchange(g: nat, x: nat, y: nat)
    ensures (g * x) * y == (g * y) * x
  {
    assert x * y == y * x;
    Distribute(g, x, y, 0);
    Distribute(g, y, x, 0);
  }

  lemma CycleBound(interval: nat, base: nat)
    requires 0 < interval && 0 < base
    ensures 0 < base / Gcd(interval, base) <= base
  {
    var turns := CycleClosesUp(interval, base);
  }

  /** Steps of `interval` before the phase modulo `base` repeats. */
  function CycleLength(interval: nat, base: nat): (c: nat)
    requires 0 < interval && 0 < base
    ensures 0 < c <= base
  {
    CycleBound(interval, base);
    base / Gcd(interval, base)
  }

  lemma Distribute(a: int, b: int, c: int, d: int)
    ensures a * (b * c + d) == (a * b) * c + a * d
  {
    assert a * (b * c + d) == a * (b * c) + a * d;
    assert a * (b * c) == (a * b) * c;
  }

  lemma PhaseOf(interval: nat, base: nat, cycle: nat, turns: nat, n: nat)
    requires 0 < cycle && interval * cycle == base * turns
    ensures interval * n == interval * (n % cycle) + base * (turns * (n / cycle))
  {
    var q, r := n / cycle, n % cycle;
    Divided(n, cycle);
    Distribute(interval, cycle, q, r);
    Distribute(base, turns, q, 0);
  }

  /** Position `n` differs from its residue by whole bases. */
  lemma ResiduePhase(interval: nat, base: nat, n: nat) returns (k: nat)
    requires 0 < interval && 0 < base
    ensures interval * n == interval * (n % CycleLength(interval, base)) + base * k
  {
    hide CycleLength;
    var turns := ClosesUp(interval, base);
    PhaseOf(interval, base, CycleLength(interval, base), turns, n);
    k := turns * (n / CycleLength(interval, base));
  }

  lemma ClosesUp(interval: nat, base: nat) returns (turns: nat)
    requires 0 < interval && 0 < base
    ensures interval * CycleLength(interval, base) == base * turns
  {
    turns := CycleClosesUp(interval, base);
  }

  /** The run of misses ending just before position `i` of the doubled table. */
  ghost predicate IsRunLength(states: seq<bool>, i: nat, run: nat)
    requires |states| > 0
  {
    && run <= i
    && (forall k: nat :: i - run <= k < i ==> !states[k % |states|])
    && (run < i ==> states[(i - run - 1) % |states|])
  }

  /** `gap` is the longest run of misses inside the first `i` positions. */
  ghost predicate LongestSoFar(states: seq<bool>, i: nat, gap: nat)
    requires |states| > 0
  {
    && (exists from: nat :: from + gap <= i && MissesIn(states, from, gap))
    && (forall from: nat, length: nat :: from + length <= i && MissesIn(states, from, length) ==> length <= gap)
  }

  ghost predicate MissesIn(states: seq<bool>, from: nat, length: nat)
    requires |states| > 0
  {
    forall k: nat :: from <= k < from + length ==> !states[k % |states|]
  }

  /** A whole turn of the table meets any entry of it. */
  lemma TurnMeets(states: seq<bool>, from: nat, length: nat, hit: nat)
    requires hit < |states| && states[hit]
    ensures MissesIn(states, from, length) ==> length < |states|
  {
    if |states| <= length {
      var c := |states|;
      var q, r := from / c, from % c;
      assert from == c * q + r;
      assert c * (q + 1) == c * q + c;
      var turn := if r <= hit then q else q + 1;
      Remainder(c, turn, hit);
      assert states[(c * turn + hit) % c];
    }
  }

  method MaximumCyclicEmptyPeriods(states: seq<bool>) returns (maxEmpty: nat, reachable: bool)
    ensures reachable == exists i :: 0 <= i < |states| && states[i]
    ensures !reachable ==> maxEmpty == |states|
    ensures reachable ==> LongestSoFar(states, 2 * |states|, maxEmpty) && maxEmpty < |states|
  {
    if |states| == 0 {
      return 0, false;
    }
    reachable := false;
    ghost var hit := 0;
    for i := 0 to |states|
      invariant reachable == exists j :: 0 <= j < i && states[j]
      invariant reachable ==> 0 <= hit < i && states[hit]
    {
      if states[i] { hit := i; }
      reachable := reachable || states[i];
    }
    if !reachable {
      return |states|, false;
    }
    maxEmpty := 0;
    var empty := 0;
    assert MissesIn(states, 0, 0);
    for i := 0 to 2 * |states|
      invariant IsRunLength(states, i, empty)
      invariant LongestSoFar(states, i, maxEmpty)
      invariant maxEmpty < |states|
    {
      ghost var previous := maxEmpty;
      if states[i % |states|] {
        empty := 0;
      } else {
        empty := empty + 1;
        TurnMeets(states, i + 1 - empty, empty, hit);
        if empty > maxEmpty && empty < |states| {
          maxEmpty := empty;
        }
      }
      ExtendLongest(states, i, previous, empty, maxEmpty);
    }
  }

  lemma ExtendLongest(states: seq<bool>, i: nat, previous: nat, empty: nat, gap: nat)
    requires |states| > 0 && LongestSoFar(states, i, previous)
    requires IsRunLength(states, i + 1, empty)
    requires gap == if empty > previous then empty else previous
    ensures LongestSoFar(states, i + 1, gap)
  {
    if empty > previous {
      assert MissesIn(states, i + 1 - empty, gap);
    }
    assert empty < i + 1 ==> states[(i - empty) % |states|];
  }

  /** The finite scan answers for the infinite signal that the table tabulates. */
  lemma ScanIsExact(fires: nat -> bool, states: seq<bool>, maxEmpty: nat)
    requires Tabulates(fires, states)
    ensures Never(fires) <==> !exists i :: 0 <= i < |states| && states[i]
    ensures LongestSoFar(states, 2 * |states|, maxEmpty) && maxEmpty < |states| ==> IsLongestGap(fires, maxEmpty)
  {
    forall i | 0 <= i < |states| ensures fires(i) == states[i] {
      Remainder(|states|, 0, i);
    }
    if LongestSoFar(states, 2 * |states|, maxEmpty) && maxEmpty < |states| {
      forall n: nat ensures HitWithin(fires, n, maxEmpty) {
        WindowHit(fires, states, maxEmpty, n);
      }
      var from: nat :| from + maxEmpty <= 2 * |states| && MissesIn(states, from, maxEmpty);
      assert EmptyRun(fires, from, maxEmpty);
    }
  }

  lemma WindowHit(fires: nat -> bool, states: seq<bool>, maxEmpty: nat, n: nat)
    requires Tabulates(fires, states)
    requires LongestSoFar(states, 2 * |states|, maxEmpty) && maxEmpty < |states|
    ensures HitWithin(fires, n, maxEmpty)
  {
    var c := |states|;
    var q, r := n / c, n % c;
    Divided(n, c);
    assert !MissesIn(states, r, maxEmpty + 1);
    var j: nat :| r <= j < r + maxEmpty + 1 && states[j % c];
    WholeTurns(j, c, q);
    assert fires(j + c * q);
  }
}
