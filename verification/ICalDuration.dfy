/**
 iCalendar DURATION values (section 3.3.6 of RFC 5545): the parser, the grammar it
 accepts, and the split of a duration into nominal days and a remainder.
 */
module ICalDuration {
  import opened Decimal
  import opened Text
  import opened Wrappers

  const SECOND := 1_000_000_000
  const MINUTE := 60 * SECOND
  const HOUR := 60 * MINUTE
  const DAY := 24 * HOUR
  const WEEK := 7 * DAY

  // --- The grammar ---------------------------------------------------------------------------------

  datatype Sign = Unsigned | Plus | Minus
  datatype Clock = Clock(hours: Option<string>, minutes: Option<string>, seconds: Option<string>)
  datatype Body = Weeks(weeks: string) | DayTime(days: Option<string>, clock: Option<Clock>)

  predicate Numeral(s: string) {
    s != "" && AllDigits(s)
  }

  predicate FieldOk(field: Option<string>) {
    field.Some? ==> Numeral(field.value)
  }

  predicate ClockOk(clock: Clock) {
    FieldOk(clock.hours) && FieldOk(clock.minutes) && FieldOk(clock.seconds)
  }

  /** Numerals in every place; a day-time form may still be incomplete. */
  predicate BodyOk(body: Body) {
    match body
    case Weeks(n) => Numeral(n)
    case DayTime(days, clock) => FieldOk(days) && (clock.Some? ==> ClockOk(clock.value))
  }

  predicate HasPart(clock: Clock) {
    clock.hours.Some? || clock.minutes.Some? || clock.seconds.Some?
  }

  /** At least one part, and at least one after a `T`. */
  predicate WellFormed(body: Body) {
    && BodyOk(body)
    && (body.DayTime? ==> (body.days.Some? || body.clock.Some?) && (body.clock.Some? ==> HasPart(body.clock.value)))
  }

  function Field(field: Option<string>, designator: char): string {
    if field.Some? then field.value + [designator] else ""
  }

  function ClockText(clock: Clock): string {
    Field(clock.hours, 'H') + Field(clock.minutes, 'M') + Field(clock.seconds, 'S')
  }

  function BodyText(body: Body): string {
    match body
    case Weeks(n) => n + "W"
    case DayTime(days, clock) => Field(days, 'D') + if clock.Some? then "T" + ClockText(clock.value) else ""
  }

  function SignText(sign: Sign): string {
    match sign case Unsigned => "" case Plus => "+" case Minus => "-"
  }

  function DurationText(sign: Sign, body: Body): string {
    SignText(sign) + ("P" + BodyText(body))
  }

  function Amount(field: Option<string>, unit: nat): nat
    requires FieldOk(field)
  {
    if field.Some? then Value(field.value) * unit else 0
  }

  function ClockMagnitude(clock: Clock): nat
    requires ClockOk(clock)
  {
    Amount(clock.hours, HOUR) + Amount(clock.minutes, MINUTE) + Amount(clock.seconds, SECOND)
  }

  /** The exact sum in nanoseconds. */
  function Magnitude(body: Body): nat
    requires BodyOk(body)
  {
    match body
    case Weeks(n) => Value(n) * WEEK
    case DayTime(days, clock) => Amount(days, DAY) + if clock.Some? then ClockMagnitude(clock.value) else 0
  }

  function Signed(sign: Sign, n: int): int {
    if sign.Minus? then 0 - n else n
  }

  /** `s` is a duration of the grammar whose value is `v` and whose magnitude fits 63 bits. */
  ghost predicate Denotes(s: string, v: int) {
    exists sign: Sign, body: Body ::
      && DurationText(sign, body) == s && WellFormed(body)
      && Magnitude(body) <= MAX_INT64 && v == Signed(sign, Magnitude(body))
  }

  // --- The parser ----------------------------------------------------------------------------------

  datatype Parsed = Parsed(value: int) | Invalid | Overflows

  datatype Progress = Progress(
    inTime: bool, seenDay: bool, seenTimePart: bool, lastTimePart: int, total: nat)

  const BEGINNING := Progress(false, false, false, 0, 0)

  /** `strconv.ParseUint` in base 10, 64 bits. */
  function ParseUint(s: string): (r: Option<nat>)
    ensures r.Some? ==> r.value <= MAX_UINT64
  {
    if !Numeral(s) || Value(s) > MAX_UINT64 then None else Some(Value(s))
  }

  function DigitRun(s: string): (n: nat)
    ensures n <= |s| && AllDigits(s[..n])
    ensures n < |s| ==> !IsDigit(s[n])
  {
    if s == "" || !IsDigit(s[0]) then 0
    else
      var n := DigitRun(s[1..]) + 1;
      assert s[..n] == [s[0]] + s[1..][..n - 1];
      n
  }

  /** The unit of a designator and the flags after it; `None` where it may not stand. */
  function Admit(p: Progress, designator: char): (r: Option<(Progress, nat)>)
    ensures r.Some? ==> r.value.1 > 0 && r.value.0.total == p.total
  {
    if designator == 'D' then
      if p.inTime || p.seenDay then None else Some((p.(seenDay := true), DAY))
    else if designator == 'H' then
      if !p.inTime || p.lastTimePart >= 1 then None else Some((p.(seenTimePart := true, lastTimePart := 1), HOUR))
    else if designator == 'M' then
      if !p.inTime || p.lastTimePart >= 2 then None else Some((p.(seenTimePart := true, lastTimePart := 2), MINUTE))
    else if designator == 'S' then
      if !p.inTime || p.lastTimePart >= 3 then None else Some((p.(seenTimePart := true, lastTimePart := 3), SECOND))
    else None
  }

  datatype Step = More(progress: Progress, rest: string) | Refused(reason: Parsed)

  /** A numeral of `n` digits and its designator. */
  function ReadPart(p: Progress, value: string, n: nat): (r: Step)
    requires n < |value| && AllDigits(value[..n])
    ensures r.More? ==> |r.rest| < |value| && r.progress.total <= MAX_INT64
    ensures r.Refused? ==> !r.reason.Parsed?
  {
    var count := ParseUint(value[..n]);
    if count.None? then Refused(Invalid)
    else
      var admitted := Admit(p, value[n]);
      if admitted.None? then Refused(Invalid)
      else
        var (flags, unit) := admitted.value;
        if p.total + count.value * unit > MAX_INT64 then Refused(Overflows)
        else More(flags.(total := p.total + count.value * unit), value[n + 1..])
  }

  /** One turn of the loop. */
  function ReadOne(p: Progress, value: string): (r: Step)
    requires value != ""
    ensures r.More? ==> |r.rest| < |value|
    ensures r.Refused? ==> !r.reason.Parsed?
  {
    if value[0] == 'T' then
      if p.inTime then Refused(Invalid) else More(p.(inTime := true), value[1..])
    else
      var n := DigitRun(value);
      if n == 0 || n == |value| then Refused(Invalid) else ReadPart(p, value, n)
  }

  predicate Complete(p: Progress) {
    (p.seenDay || p.seenTimePart) && (p.inTime ==> p.seenTimePart)
  }

  /** The day-time parts of `value` added to what is already read. */
  function ReadParts(p: Progress, value: string): (r: Parsed)
    decreases |value|
  {
    if value == "" then (if Complete(p) then Parsed(p.total) else Invalid)
    else
      match ReadOne(p, value)
      case Refused(reason) => reason
      case More(next, rest) => ReadParts(next, rest)
  }

  function ReadBody(value: string): Parsed {
    if |value| >= 2 && value[|value| - 1] == 'W' then
      var count := ParseUint(value[..|value| - 1]);
      if count.None? then Invalid else if count.value * WEEK > MAX_INT64 then Overflows else Parsed(count.value * WEEK)
    else ReadParts(BEGINNING, value)
  }

  predicate IsSpace(c: char) {
    || c in "\t\n\r " || c == '\U{0B}' || c == '\U{0C}' || c == '\U{85}' || c == '\U{A0}' || c == '\U{1680}'
    || '\U{2000}' <= c <= '\U{200A}' || c == '\U{2028}' || c == '\U{2029}' || c == '\U{202F}' || c == '\U{205F}'
    || c == '\U{3000}'
  }

  predicate Trimmed(s: string) {
    s != "" ==> !IsSpace(s[0]) && !IsSpace(s[|s| - 1])
  }

  predicate HasSign(s: string) {
    s != "" && (s[0] == '-' || s[0] == '+')
  }

  function Negate(r: Parsed): Parsed {
    if r.Parsed? then Parsed(0 - r.value) else r
  }

  function Parse(s: string): Parsed {
    if s == "" || !Trimmed(s) then Invalid
    else
      var value := if HasSign(s) then s[1..] else s;
      if |value| < 2 || value[0] != 'P' then Invalid
      else
        var r := ReadBody(value[1..]);
        if s[0] == '-' then Negate(r) else r
  }

  // --- The parser as a loop --------------------------------------------------------------------------

  lemma DivisionBound(count: nat, unit: nat, limit: nat)
    requires unit > 0
    ensures count > limit / unit <==> count * unit > limit
  {
    var q := limit / unit;
    assert limit == q * unit + limit % unit;
    if count > q {
      assert (count - q - 1) * unit >= 0;
      assert count * unit == (count - q - 1) * unit + q * unit + unit;
    } else {
      assert (q - count) * unit >= 0;
      assert q * unit == (q - count) * unit + count * unit;
    }
  }

  /** Division before multiplication: nothing wraps, and refusal is exactly overflow. */
  method CheckedDuration(count: nat, unit: nat, negative: bool) returns (r: Parsed)
    requires count <= MAX_UINT64 && unit > 0
    ensures r == if count * unit > MAX_INT64 then Overflows else Parsed(if negative then 0 - count * unit else count * unit)
  {
    DivisionBound(count, unit, MAX_INT64);
    if count > MAX_INT64 / unit {
      return Overflows;
    }
    var duration := count * unit;
    r := Parsed(if negative then 0 - duration else duration);
  }

  method CountDigits(value: string) returns (digits: nat)
    ensures digits == DigitRun(value)
  {
    digits := 0;
    while digits < |value| && IsDigit(value[digits])
      invariant digits <= |value|
      invariant DigitRun(value) == digits + DigitRun(value[digits..])
    {
      digits := digits + 1;
    }
  }

  /** The overflow tests of one part, on 64-bit values. */
  method AddPart(total: nat, count: nat, unit: nat) returns (r: Option<nat>)
    requires total <= MAX_INT64 && count <= MAX_UINT64 && unit > 0
    ensures r == if total + count * unit > MAX_INT64 then None else Some(total + count * unit)
  {
    DivisionBound(count, unit, MAX_INT64);
    if count > MAX_INT64 / unit {
      return None;
    }
    var part := count * unit;
    if total > MAX_INT64 - part {
      return None;
    }
    r := Some(total + part);
  }

  /** One part on 64-bit values. */
  method ParsePart(p: Progress, value: string, digits: nat) returns (r: Step)
    requires p.total <= MAX_INT64 && digits < |value| && AllDigits(value[..digits])
    ensures r == ReadPart(p, value, digits)
  {
    hide Value, Admit, ParseUint;
    var count := ParseUint(value[..digits]);
    if count.None? {
      return Refused(Invalid);
    }
    var admitted := Admit(p, value[digits]);
    if admitted.None? {
      return Refused(Invalid);
    }
    var (flags, unit) := admitted.value;
    var total := AddPart(p.total, count.value, unit);
    r := if total.None? then Refused(Overflows) else More(flags.(total := total.value), value[digits + 1..]);
  }

  method ParseParts(text: string) returns (r: Parsed)
    ensures r == ReadParts(BEGINNING, text)
  {
    hide DigitRun, ReadPart;
    var value, p := text, BEGINNING;
    while |value| > 0
      invariant p.total <= MAX_INT64
      invariant ReadParts(p, value) == ReadParts(BEGINNING, text)
      decreases |value|
    {
      if value[0] == 'T' {
        if p.inTime {
          return Invalid;
        }
        p, value := p.(inTime := true), value[1..];
        continue;
      }
      var digits := CountDigits(value);
      if digits == 0 || digits == |value| {
        return Invalid;
      }
      var part := ParsePart(p, value, digits);
      if part.Refused? {
        return part.reason;
      }
      p, value := part.progress, part.rest;
    }
    r := if Complete(p) then Parsed(p.total) else Invalid;
  }

  method ParseDuration(s: string) returns (r: Parsed)
    ensures r == Parse(s)
    ensures forall v :: r == Parsed(v) <==> Denotes(s, v)
  {
    hide ReadParts, ParseUint, Denotes;
    forall v ensures Parse(s) == Parsed(v) <==> Denotes(s, v) {
      ParseExact(s, v);
    }
    if s == "" || !Trimmed(s) {
      return Invalid;
    }
    var negative, value := false, s;
    if HasSign(s) {
      negative, value := s[0] == '-', s[1..];
    }
    if |value| < 2 || value[0] != 'P' {
      return Invalid;
    }
    value := value[1..];
    if |value| >= 2 && value[|value| - 1] == 'W' {
      var count := ParseUint(value[..|value| - 1]);
      if count.None? {
        return Invalid;
      }
      r := CheckedDuration(count.value, WEEK, negative);
      return;
    }
    r := ParseParts(value);
    if negative {
      r := Negate(r);
    }
  }

  // --- Soundness ----------------------------------------------------------------------------------------

  /** The partial body that a progress record stands for. */
  ghost predicate Represents(p: Progress, b: Body) {
    && b.DayTime? && BodyOk(b)
    && p.seenDay == b.days.Some? && p.inTime == b.clock.Some? && p.total == Magnitude(b)
    && (b.clock.None? ==> p.lastTimePart == 0 && !p.seenTimePart)
    && (b.clock.Some? ==>
          && p.seenTimePart == HasPart(b.clock.value)
          && p.lastTimePart == LastPart(b.clock.value))
  }

  function LastPart(clock: Clock): int {
    if clock.seconds.Some? then 3 else if clock.minutes.Some? then 2 else if clock.hours.Some? then 1 else 0
  }

  function PutClock(clock: Clock, designator: char, digits: string): Clock {
    if designator == 'H' then clock.(hours := Some(digits))
    else if designator == 'M' then clock.(minutes := Some(digits))
    else clock.(seconds := Some(digits))
  }

  /** The body with one more part. */
  function Put(b: Body, designator: char, digits: string): Body
    requires b.DayTime? && (designator != 'D' ==> b.clock.Some?)
  {
    if designator == 'D' then b.(days := Some(digits))
    else b.(clock := Some(PutClock(b.clock.value, designator, digits)))
  }

  lemma PutRepresents(p: Progress, b: Body, c: char, digits: string)
    requires Represents(p, b) && Numeral(digits) && Admit(p, c).Some?
    ensures var (flags, unit) := Admit(p, c).value;
            Represents(flags.(total := p.total + Value(digits) * unit), Put(b, c, digits))
  {
    hide Value;
  }

  /** A later part prints after the earlier ones. */
  lemma PutClockText(clock: Clock, c: char, digits: string)
    requires c in "HMS" && LastPart(clock) < (if c == 'H' then 1 else if c == 'M' then 2 else 3)
    ensures ClockText(PutClock(clock, c, digits)) == ClockText(clock) + (digits + [c])
  {
  }

  lemma PutText(p: Progress, b: Body, c: char, digits: string)
    requires Represents(p, b) && Admit(p, c).Some?
    ensures BodyText(Put(b, c, digits)) == BodyText(b) + (digits + [c])
  {
    hide Value, Magnitude, BodyOk, ClockText, Field;
    if c != 'D' {
      PutClockText(b.clock.value, c, digits);
      Regroup("T", ClockText(b.clock.value), digits + [c]);
      Regroup(Field(b.days, 'D'), "T" + ClockText(b.clock.value), digits + [c]);
    } else {
      FieldTexts(digits, c);
      assert BodyText(b) == "";
    }
  }

  lemma FieldTexts(digits: string, c: char)
    ensures Field(None, c) == "" && Field(Some(digits), c) == digits + [c]
  {
  }

  lemma PartSound(p: Progress, b: Body, value: string, n: nat) returns (next: Body)
    requires Represents(p, b) && 0 < n < |value| && AllDigits(value[..n]) && ReadPart(p, value, n).More?
    ensures Represents(ReadPart(p, value, n).progress, next)
    ensures BodyText(next) + ReadPart(p, value, n).rest == BodyText(b) + value
  {
    hide Value, BodyText, Magnitude, BodyOk;
    var digits, c := value[..n], value[n];
    PutRepresents(p, b, c, digits);
    PutText(p, b, c, digits);
    next := Put(b, c, digits);
    assert value == digits + [c] + value[n + 1..];
    Regroup(BodyText(b), digits + [c], value[n + 1..]);
  }

  lemma OneSound(p: Progress, b: Body, value: string) returns (next: Body)
    requires Represents(p, b) && value != "" && ReadOne(p, value).More?
    ensures Represents(ReadOne(p, value).progress, next)
    ensures BodyText(next) + ReadOne(p, value).rest == BodyText(b) + value
  {
    hide ReadPart, DigitRun;
    if value[0] == 'T' {
      next := b.(clock := Some(Clock(None, None, None)));
      assert BodyText(next) == BodyText(b) + "T";
      assert value == "T" + value[1..];
      Regroup(BodyText(b), "T", value[1..]);
    } else {
      next := PartSound(p, b, value, DigitRun(value));
    }
  }

  lemma {:induction false} PartsSound(p: Progress, b: Body, value: string) returns (body: Body)
    requires Represents(p, b) && ReadParts(p, value).Parsed?
    ensures WellFormed(body) && BodyText(body) == BodyText(b) + value
    ensures ReadParts(p, value) == Parsed(Magnitude(body))
    decreases |value|
  {
    hide ReadOne, BodyText, Magnitude;
    if value == "" {
      body := b;
      assert BodyText(b) + "" == BodyText(b);
    } else {
      var next := OneSound(p, b, value);
      body := PartsSound(ReadOne(p, value).progress, next, ReadOne(p, value).rest);
    }
  }

  lemma BodySound(value: string) returns (body: Body)
    requires ReadBody(value).Parsed?
    ensures WellFormed(body) && BodyText(body) == value
    ensures ReadBody(value) == Parsed(Magnitude(body)) && Magnitude(body) <= MAX_INT64
  {
    hide ReadParts, Value;
    if |value| >= 2 && value[|value| - 1] == 'W' {
      body := Weeks(value[..|value| - 1]);
    } else {
      body := PartsSound(BEGINNING, DayTime(None, None), value);
      PartsFit(BEGINNING, value);
    }
  }

  lemma {:induction false} PartsFit(p: Progress, value: string)
    requires p.total <= MAX_INT64 && ReadParts(p, value).Parsed?
    ensures ReadParts(p, value).value <= MAX_INT64
    decreases |value|
  {
    hide DigitRun, Admit, ParseUint;
    if value != "" {
      PartsFit(ReadOne(p, value).progress, ReadOne(p, value).rest);
    }
  }

  lemma ParseSound(s: string)
    requires Parse(s).Parsed?
    ensures Denotes(s, Parse(s).value)
  {
    hide ReadBody, BodyText, Magnitude, BodyOk, Trimmed;
    var value := if HasSign(s) then s[1..] else s;
    var body := BodySound(value[1..]);
    var sign := if s[0] == '-' then Minus else if s[0] == '+' then Plus else Unsigned;
    assert "P" + BodyText(body) == value;
    assert SignText(sign) + value == s;
    assert DurationText(sign, body) == s;
  }

  // --- Completeness -------------------------------------------------------------------------------------

  lemma {:induction false} RunOfNumeral(digits: string, c: char, tail: string)
    requires AllDigits(digits) && !IsDigit(c)
    ensures DigitRun(digits + ([c] + tail)) == |digits|
    decreases |digits|
  {
    var s := digits + ([c] + tail);
    if digits == "" {
      assert s[0] == c;
    } else {
      assert s[0] == digits[0] && s[1..] == digits[1..] + ([c] + tail);
      RunOfNumeral(digits[1..], c, tail);
    }
  }

  /** A present part is read and added. */
  lemma PartReads(p: Progress, digits: string, c: char, tail: string)
    requires Numeral(digits) && Admit(p, c).Some?
    requires p.total + Value(digits) * Admit(p, c).value.1 <= MAX_INT64
    ensures var (flags, unit) := Admit(p, c).value;
            ReadParts(p, digits + [c] + tail) == ReadParts(flags.(total := p.total + Value(digits) * unit), tail)
  {
    hide Value, DigitRun, ReadPart, Admit, ParseUint;
    var s := digits + [c] + tail;
    DesignatorNotDigit(p, c);
    assert s == digits + ([c] + tail);
    RunOfNumeral(digits, c, tail);
    var n := |digits|;
    assert s[..n] == digits && s[n] == c && s[n + 1..] == tail;
    assert s[0] == digits[0] && IsDigit(digits[0]);
    PartStep(p, s, n);
  }

  lemma DesignatorNotDigit(p: Progress, c: char)
    requires Admit(p, c).Some?
    ensures !IsDigit(c)
  {
  }

  lemma PartStep(p: Progress, s: string, n: nat)
    requires 0 < n < |s| && AllDigits(s[..n]) && Admit(p, s[n]).Some?
    requires p.total + Value(s[..n]) * Admit(p, s[n]).value.1 <= MAX_INT64
    ensures var (flags, unit) := Admit(p, s[n]).value;
            ReadPart(p, s, n) == More(flags.(total := p.total + Value(s[..n]) * unit), s[n + 1..])
  {
    hide Value, Admit;
    AtLeast(Value(s[..n]), Admit(p, s[n]).value.1);
  }

  lemma AtLeast(count: nat, unit: nat)
    requires unit > 0
    ensures count <= count * unit
  {
    assert count * unit == count * (unit - 1) + count;
    assert count * (unit - 1) >= 0;
  }

  function Took(p: Progress, field: Option<string>, flags: Progress, unit: nat): Progress
    requires FieldOk(field)
  {
    if field.Some? then flags.(total := p.total + Amount(field, unit)) else p
  }

  /** A part, present or not. */
  lemma FieldReads(p: Progress, field: Option<string>, c: char, tail: string)
    requires FieldOk(field) && Admit(p, c).Some? && p.total + Amount(field, Admit(p, c).value.1) <= MAX_INT64
    ensures ReadParts(p, Field(field, c) + tail) ==
            ReadParts(Took(p, field, Admit(p, c).value.0, Admit(p, c).value.1), tail)
  {
    hide Value, ReadParts, Admit;
    if field.Some? {
      PartReads(p, field.value, c, tail);
    } else {
      assert Field(field, c) + tail == tail;
    }
  }

  lemma ClockReads(p: Progress, clock: Clock)
    requires p.inTime && p.lastTimePart == 0 && !p.seenTimePart && ClockOk(clock) && HasPart(clock)
    requires p.total + ClockMagnitude(clock) <= MAX_INT64
    ensures ReadParts(p, ClockText(clock)) == Parsed(p.total + ClockMagnitude(clock))
  {
    hide Value, ReadParts, Amount, Field;
    var h, m, s := Field(clock.hours, 'H'), Field(clock.minutes, 'M'), Field(clock.seconds, 'S');
    assert ClockText(clock) == h + (m + (s + ""));
    FieldReads(p, clock.hours, 'H', m + (s + ""));
    var p1 := Took(p, clock.hours, Admit(p, 'H').value.0, HOUR);
    AmountNone(clock);
    FieldReads(p1, clock.minutes, 'M', s + "");
    var p2 := Took(p1, clock.minutes, Admit(p1, 'M').value.0, MINUTE);
    FieldReads(p2, clock.seconds, 'S', "");
    var p3 := Took(p2, clock.seconds, Admit(p2, 'S').value.0, SECOND);
    AtEnd(p3);
  }

  lemma AmountNone(clock: Clock)
    requires ClockOk(clock)
    ensures clock.hours.None? ==> Amount(clock.hours, HOUR) == 0
    ensures clock.minutes.None? ==> Amount(clock.minutes, MINUTE) == 0
    ensures clock.seconds.None? ==> Amount(clock.seconds, SECOND) == 0
  {
  }

  lemma AtEnd(p: Progress)
    requires Complete(p)
    ensures ReadParts(p, "") == Parsed(p.total)
  {
  }

  /** The `T` opens the clock part. */
  lemma OpenClock(p: Progress, tail: string)
    requires !p.inTime
    ensures ReadParts(p, "T" + tail) == ReadParts(p.(inTime := true), tail)
  {
    assert ("T" + tail)[1..] == tail;
  }

  lemma PartsComplete(body: Body)
    requires WellFormed(body) && body.DayTime? && Magnitude(body) <= MAX_INT64
    ensures ReadParts(BEGINNING, BodyText(body)) == Parsed(Magnitude(body))
  {
    hide Value, ReadParts, Field, ClockText, ClockMagnitude;
    var tail := if body.clock.Some? then "T" + ClockText(body.clock.value) else "";
    assert BodyText(body) == Field(body.days, 'D') + tail;
    FieldReads(BEGINNING, body.days, 'D', tail);
    var p := Took(BEGINNING, body.days, Admit(BEGINNING, 'D').value.0, DAY);
    if body.clock.Some? {
      OpenClock(p, ClockText(body.clock.value));
      ClockReads(p.(inTime := true), body.clock.value);
    } else {
      AtEnd(p);
    }
  }

  function Last(s: string): char
    requires s != ""
  {
    s[|s| - 1]
  }

  lemma LastOfJoin(a: string, b: string)
    requires b != ""
    ensures Last(a + b) == Last(b) && |a + b| > |a|
  {
  }

  lemma ClockEnds(clock: Clock)
    requires ClockOk(clock) && HasPart(clock)
    ensures ClockText(clock) != "" && Last(ClockText(clock)) in "HMS"
  {
    hide Last;
    var h, m, s := Field(clock.hours, 'H'), Field(clock.minutes, 'M'), Field(clock.seconds, 'S');
    FieldEnds(clock.hours, 'H');
    FieldEnds(clock.minutes, 'M');
    FieldEnds(clock.seconds, 'S');
    if s != "" {
      LastOfJoin(h + m, s);
    } else if m != "" {
      assert ClockText(clock) == h + m;
      LastOfJoin(h, m);
    } else {
      assert ClockText(clock) == h;
    }
  }

  lemma FieldEnds(field: Option<string>, c: char)
    requires FieldOk(field)
    ensures field.Some? ==> |Field(field, c)| >= 2 && Last(Field(field, c)) == c
    ensures field.None? ==> Field(field, c) == ""
  {
  }

  /** The last character of a printed body tells the two forms apart. */
  lemma BodyEnds(body: Body)
    requires WellFormed(body)
    ensures |BodyText(body)| >= 2 && Last(BodyText(body)) in "WDHMS"
    ensures Last(BodyText(body)) == 'W' <==> body.Weeks?
  {
    hide Last, Field, ClockText;
    if body.Weeks? {
      LastOfJoin(body.weeks, "W");
      LastOfW();
    } else {
      FieldEnds(body.days, 'D');
      if body.clock.Some? {
        ClockEnds(body.clock.value);
        LastOfJoin("T", ClockText(body.clock.value));
        LastOfJoin(Field(body.days, 'D'), "T" + ClockText(body.clock.value));
      } else {
        assert BodyText(body) == Field(body.days, 'D');
      }
    }
  }

  lemma LastOfW()
    ensures Last("W") == 'W'
  {
  }

  lemma WeeksComplete(weeks: string)
    requires Numeral(weeks) && Value(weeks) * WEEK <= MAX_INT64
    ensures ReadBody(weeks + "W") == Parsed(Value(weeks) * WEEK)
  {
    hide Value, ReadParts;
    var text := weeks + "W";
    assert text[..|text| - 1] == weeks && text[|text| - 1] == 'W';
  }

  lemma BodyComplete(body: Body)
    requires WellFormed(body) && Magnitude(body) <= MAX_INT64
    ensures ReadBody(BodyText(body)) == Parsed(Magnitude(body))
  {
    if body.Weeks? {
      hide Value, ReadBody;
      WeeksComplete(body.weeks);
    } else {
      hide ReadParts, BodyText, Magnitude, BodyOk;
      BodyEnds(body);
      PartsComplete(body);
    }
  }

  /** A sign in front of a trimmed text starting with `P` is found and stripped. */
  lemma SignReads(sign: Sign, value: string)
    requires |value| >= 2 && value[0] == 'P' && !IsSpace(value[|value| - 1])
    ensures var s := SignText(sign) + value;
            && Trimmed(s) && s != "" && HasSign(s) == !sign.Unsigned? && (s[0] == '-' <==> sign.Minus?)
            && (if HasSign(s) then s[1..] else s) == value
  {
    var s := SignText(sign) + value;
    assert s[|s| - 1] == value[|value| - 1];
    assert !sign.Unsigned? ==> s[1..] == value;
    assert sign.Unsigned? ==> s == value;
  }

  lemma ParseComplete(sign: Sign, body: Body)
    requires WellFormed(body) && Magnitude(body) <= MAX_INT64
    ensures Parse(DurationText(sign, body)) == Parsed(Signed(sign, Magnitude(body)))
  {
    hide BodyText, Magnitude, ReadBody, BodyOk, HasSign, Trimmed, SignText;
    BodyComplete(body);
    BodyEnds(body);
    var value := "P" + BodyText(body);
    assert value[1..] == BodyText(body);
    assert value[|value| - 1] == BodyText(body)[|BodyText(body)| - 1];
    SignReads(sign, value);
  }

  /** The parser accepts exactly the grammar, with the exact value and the exact overflow boundary. */
  lemma ParseExact(s: string, v: int)
    ensures Parse(s) == Parsed(v) <==> Denotes(s, v)
  {
    hide Parse, BodyOk, Magnitude, DurationText;
    if Parse(s).Parsed? {
      ParseSound(s);
    }
    forall sign, body |
      && DurationText(sign, body) == s && WellFormed(body) && Magnitude(body) <= MAX_INT64
      && v == Signed(sign, Magnitude(body))
      ensures Parse(s) == Parsed(v)
    {
      ParseComplete(sign, body);
    }
  }

  // --- Nominal days -----------------------------------------------------------------------------------------

  /** Two's-complement reading of the low 64 bits. */
  function Wrap(n: int): int {
    var low := n % 0x1_0000_0000_0000_0000;
    if low > MAX_INT64 then low - 0x1_0000_0000_0000_0000 else low
  }

  /** The days named by an unsigned text. */
  function NamedDays(text: string): Option<nat>
    requires text != ""
  {
    if text[|text| - 1] == 'W' then
      var weeks := if |text| < 2 then None else ParseUint(text[1..|text| - 1]);
      if weeks.None? || weeks.value > MAX_INT64 / 7 then None else Some(weeks.value * 7)
    else
      var end := IndexOf(text, 'D');
      if end.None? then Some(0) else if end.value < 1 then None else ParseUint(text[1..end.value])
  }

  /** Whole days named by the text and what remains of `total`. */
  function NominalParts(value: string, total: int): Option<(int, int)> {
    var text := if value != "" && value[0] == '+' then value[1..] else value;
    if text == "" || text[0] != 'P' then None
    else
      var days := NamedDays(text);
      if days.None? || days.value > MAX_INT64 then None
      else Some((days.value, Wrap(total - Wrap(days.value * DAY))))
  }

  function NominalDays(body: Body): nat
    requires BodyOk(body)
  {
    match body
    case Weeks(n) => 7 * Value(n)
    case DayTime(days, _) => Amount(days, 1)
  }

  function ClockPart(body: Body): nat
    requires BodyOk(body)
  {
    if body.DayTime? && body.clock.Some? then ClockMagnitude(body.clock.value) else 0
  }

  lemma DaysAndClock(body: Body)
    requires BodyOk(body)
    ensures NominalDays(body) * DAY + ClockPart(body) == Magnitude(body)
  {
    hide Value, ClockMagnitude;
  }

  lemma NoDayLetter(clock: Clock)
    requires ClockOk(clock)
    ensures 'D' !in ClockText(clock)
  {
    FieldLetters(clock.hours, 'H');
    FieldLetters(clock.minutes, 'M');
    FieldLetters(clock.seconds, 'S');
  }

  lemma FieldLetters(field: Option<string>, c: char)
    requires FieldOk(field) && c != 'D'
    ensures 'D' !in Field(field, c)
  {
  }

  /** Where the day designator stands in a printed body. */
  lemma DayPlace(body: Body)
    requires WellFormed(body) && body.DayTime?
    ensures var text := "P" + BodyText(body);
            if body.days.None? then IndexOf(text, 'D') == None
            else IndexOf(text, 'D') == Some(|body.days.value| + 1) && text[1..|body.days.value| + 1] == body.days.value
  {
    hide IndexOf, ClockText;
    var text := "P" + BodyText(body);
    if body.clock.Some? {
      NoDayLetter(body.clock.value);
    }
    if body.days.Some? {
      var n := |body.days.value| + 1;
      assert text[1..n] == body.days.value;
      assert text[..n] == "P" + body.days.value;
      assert text[n] == 'D';
      IndexUnique(text, 'D', n);
    } else {
      assert 'D' !in text;
    }
  }

  lemma NamedDaysExact(body: Body)
    requires WellFormed(body) && NominalDays(body) <= MAX_INT64
    ensures NamedDays("P" + BodyText(body)) == Some(NominalDays(body))
  {
    hide Value, IndexOf;
    BodyEnds(body);
    var text := "P" + BodyText(body);
    assert text[|text| - 1] == BodyText(body)[|BodyText(body)| - 1];
    if body.Weeks? {
      assert text[1..|text| - 1] == body.weeks;
    } else {
      hide BodyText;
      DayPlace(body);
    }
  }

  /** Every accepted positive duration splits into the days its text names and a non-negative remainder. */
  lemma NominalPartsExact(sign: Sign, body: Body)
    requires WellFormed(body) && Magnitude(body) <= MAX_INT64 && !sign.Minus?
    ensures NominalParts(DurationText(sign, body), Magnitude(body)) == Some((NominalDays(body), ClockPart(body)))
    ensures NominalDays(body) * DAY + ClockPart(body) == Magnitude(body)
  {
    hide BodyText, NominalDays, ClockPart, Magnitude, NamedDays, BodyOk;
    DaysAndClock(body);
    NamedDaysExact(body);
    var s := DurationText(sign, body);
    var text := "P" + BodyText(body);
    assert text[0] == 'P';
    assert sign.Plus? ==> s[0] == '+' && s[1..] == text;
    assert sign.Unsigned? ==> s == text;
  }

  lemma NominalPartsOfParsed(s: string)
    requires Parse(s).Parsed? && Parse(s).value > 0
    ensures NominalParts(s, Parse(s).value).Some?
    ensures var (days, remainder) := NominalParts(s, Parse(s).value).value;
            days >= 0 && 0 <= remainder && days * DAY + remainder == Parse(s).value
  {
    hide Parse, NominalParts, BodyOk, Magnitude, DurationText;
    ParseSound(s);
    var sign, body :|
      && DurationText(sign, body) == s && WellFormed(body) && Magnitude(body) <= MAX_INT64
      && Parse(s).value == Signed(sign, Magnitude(body));
    NominalPartsExact(sign, body);
  }

  /** The full form, as it is written. */
  lemma FullText(days: string, hours: string, minutes: string, seconds: string)
    ensures BodyText(DayTime(Some(days), Some(Clock(Some(hours), Some(minutes), Some(seconds))))) ==
            days + "D" + ("T" + ((hours + "H") + (minutes + "M") + (seconds + "S")))
  {
  }

  /** The units in nanoseconds. */
  lemma UnitLengths()
    ensures SECOND == 1_000_000_000 && MINUTE == 60_000_000_000 && HOUR == 3_600_000_000_000
    ensures DAY == 86_400_000_000_000 && WEEK == 604_800_000_000_000
  {
  }

  /** Weeks and days weigh their number times their unit. */
  lemma DatePartsWeigh(n: string)
    requires Numeral(n)
    ensures Magnitude(Weeks(n)) == Value(n) * WEEK
    ensures Magnitude(DayTime(Some(n), None)) == Value(n) * DAY
  {
    hide Value;
  }

  /** A lone hour, minute or second part weighs its number times its unit. */
  lemma ClockPartsWeigh(n: string)
    requires Numeral(n)
    ensures ClockMagnitude(Clock(Some(n), None, None)) == Value(n) * HOUR
    ensures ClockMagnitude(Clock(None, Some(n), None)) == Value(n) * MINUTE
    ensures ClockMagnitude(Clock(None, None, Some(n))) == Value(n) * SECOND
  {
    hide Value;
  }

  /** Parts add up. */
  lemma PartsAdd(days: Option<string>, hours: Option<string>, minutes: Option<string>, seconds: Option<string>)
    requires FieldOk(days) && FieldOk(hours) && FieldOk(minutes) && FieldOk(seconds)
    ensures Magnitude(DayTime(days, Some(Clock(hours, minutes, seconds)))) ==
            Magnitude(DayTime(days, None)) + ClockMagnitude(Clock(hours, None, None))
            + ClockMagnitude(Clock(None, minutes, None)) + ClockMagnitude(Clock(None, None, seconds))
  {
    hide Value;
  }
}
