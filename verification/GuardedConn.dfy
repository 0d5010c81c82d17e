/**
 The inbound guard of an IMAP connection: a byte machine that stops the stream at
 the first violated limit, wherever the reads happen to cut it.
 */
module GuardedConn {
  import opened Decimal
  import opened Text
  import opened Wrappers

  const MAX_SESSION := 4 * 1024 * 1024
  const MAX_LINE := 1024 * 1024
  const MAX_DEPTH := 24
  const MAX_LISTS := 512
  const MAX_QUOTED := 2 * 4 * 1024 + 2

  // --- Literal sizes ------------------------------------------------------------------------------

  /** `strconv.ParseInt` in base 10, 64 bits. */
  function ParseInt(s: string): Option<int> {
    var signed := s != "" && (s[0] == '-' || s[0] == '+');
    var digits := if signed then s[1..] else s;
    if digits == "" || !AllDigits(digits) then None
    else if signed && s[0] == '-' then (if Value(digits) <= MAX_INT64 + 1 then Some(0 - Value(digits)) else None)
    else if Value(digits) <= MAX_INT64 then Some(Value(digits))
    else None
  }

  function LastIndexOf(s: string, c: char): (r: Option<nat>)
    ensures r.Some? ==> r.value < |s| && s[r.value] == c && c !in s[r.value + 1..]
    ensures r.None? ==> c !in s
  {
    if s == "" then None
    else if s[|s| - 1] == c then Some(|s| - 1)
    else
      var r := LastIndexOf(s[..|s| - 1], c);
      assert r.Some? ==> s[r.value + 1..] == s[..|s| - 1][r.value + 1..] + [s[|s| - 1]];
      r
  }

  datatype Size = Size(bytes: nat) | OverLimit

  /** The literal announced at the end of a line; 0 when there is none. */
  function LiteralSize(line: string): (r: Size)
    ensures r.Size? ==> r.bytes <= MAX_SESSION
  {
    if |line| < 2 || line[|line| - 1] != '}' then Size(0)
    else
      var end := |line| - 1;
      var start := LastIndexOf(line[..end], '{');
      if start.None? then Size(0)
      else
        var inner := line[start.value + 1..end];
        var number := if inner != "" && inner[|inner| - 1] == '+' then inner[..|inner| - 1] else inner;
        var n := ParseInt(number);
        if n.None? || n.value < 0 then Size(0)
        else if n.value > MAX_SESSION then OverLimit
        else Size(n.value)
  }

  lemma {:induction false} LastIndexUnique(s: string, c: char, k: nat)
    requires k < |s| && s[k] == c && c !in s[k + 1..]
    ensures LastIndexOf(s, c) == Some(k)
    decreases |s|
  {
    var n := |s| - 1;
    if k < n {
      assert s[n] in s[k + 1..];
      assert s[k + 1..] == s[..n][k + 1..] + [s[n]];
      LastIndexUnique(s[..n], c, k);
    }
  }

  /** The text between the braces of an announcement. */
  lemma BracedText(prefix: string, inner: string)
    requires '{' !in inner
    ensures var line := prefix + "{" + inner + "}";
            LastIndexOf(line[..|line| - 1], '{') == Some(|prefix|) && line[|prefix| + 1..|line| - 1] == inner
  {
    hide LastIndexOf;
    var body := prefix + "{" + inner;
    var line := body + "}";
    assert line[..|line| - 1] == body;
    assert body[|prefix|] == '{' && body[|prefix| + 1..] == inner;
    LastIndexUnique(body, '{', |prefix|);
    assert line[|prefix| + 1..|line| - 1] == inner;
  }

  // --- The byte machine ---------------------------------------------------------------------------

  datatype Guard = Guard(
    total: nat, line: string, literal: nat, depth: int, lists: nat, quoted: bool, quotedLength: nat, escaped: bool)

  const START := Guard(0, "", 0, 0, 0, false, 0, false)

  ghost predicate Bounded(g: Guard) {
    && g.total <= MAX_SESSION && |g.line| <= MAX_LINE && g.literal <= MAX_SESSION
    && 0 <= g.depth <= MAX_DEPTH && g.lists <= MAX_LISTS && g.quotedLength <= MAX_QUOTED
  }

  /** Quoting and nesting after one protocol byte; `None` at a violated limit. */
  function Nest(g: Guard, b: char): Option<Guard> {
    if g.quoted then
      if g.quotedLength + 1 > MAX_QUOTED then None
      else
        var h := g.(quotedLength := g.quotedLength + 1);
        Some(if h.escaped then h.(escaped := false)
             else if b == '\\' then h.(escaped := true)
             else if b == '"' then h.(quoted := false)
             else h)
    else if b == '"' then Some(g.(quoted := true, quotedLength := 0))
    else if b == '(' then
      if g.depth + 1 > MAX_DEPTH || g.lists + 1 > MAX_LISTS then None
      else Some(g.(depth := g.depth + 1, lists := g.lists + 1))
    else if b == ')' then (if g.depth - 1 < 0 then None else Some(g.(depth := g.depth - 1)))
    else Some(g)
  }

  /** The end of a line announces a literal or resets the line state. */
  function EndLine(g: Guard): Option<Guard>
    requires |g.line| >= 2
  {
    match LiteralSize(g.line[..|g.line| - 2])
    case OverLimit => None
    case Size(n) =>
      Some(g.(literal := n, line := "", quoted := false, quotedLength := 0, escaped := false,
              lists := if n == 0 && g.depth == 0 then 0 else g.lists))
  }

  /** One protocol byte. */
  function ScanByte(g: Guard, b: char): Option<Guard> {
    var line := g.line + [b];
    if |line| > MAX_LINE then None
    else
      var nested := Nest(g.(line := line), b);
      if nested.None? then None
      else if |line| >= 2 && line[|line| - 2] == '\r' && b == '\n' then EndLine(nested.value)
      else nested
  }

  /** One received byte, payload or protocol. */
  function Accept(g: Guard, b: char): Option<Guard> {
    if g.total >= MAX_SESSION then None
    else
      var h := g.(total := g.total + 1);
      if h.literal > 0 then Some(h.(literal := h.literal - 1)) else ScanByte(h, b)
  }

  /** The machine over a stream: how many bytes pass, and the state if all do. */
  datatype Fed = Fed(passed: nat, state: Option<Guard>)

  function Feed(g: Guard, s: string): (r: Fed)
    ensures r.passed <= |s|
    ensures r.state.Some? <==> r.passed == |s|
    decreases |s|
  {
    if s == "" then Fed(0, Some(g))
    else
      var next := Accept(g, s[0]);
      if next.None? then Fed(0, None)
      else
        var rest := Feed(next.value, s[1..]);
        Fed(rest.passed + 1, rest.state)
  }

  /** Feeding two pieces is feeding their concatenation. */
  lemma {:induction false} FeedAppend(g: Guard, a: string, b: string)
    ensures Feed(g, a + b) ==
      (var first := Feed(g, a);
       if first.state.None? then first
       else Fed(|a| + Feed(first.state.value, b).passed, Feed(first.state.value, b).state))
    decreases |a|
  {
    hide Accept;
    if a == "" {
      assert a + b == b;
    } else {
      assert (a + b)[0] == a[0] && (a + b)[1..] == a[1..] + b;
      if Accept(g, a[0]).Some? {
        FeedAppend(Accept(g, a[0]).value, a[1..], b);
      }
    }
  }

  lemma AcceptBounded(g: Guard, b: char)
    requires Bounded(g) && Accept(g, b).Some?
    ensures Bounded(Accept(g, b).value)
  {
    hide LiteralSize;
  }

  /** Until the first violation every counter stays inside its limit. */
  lemma {:induction false} FeedBounded(g: Guard, s: string)
    requires Bounded(g) && Feed(g, s).state.Some?
    ensures Bounded(Feed(g, s).state.value)
    decreases |s|
  {
    hide Accept, Bounded;
    if s != "" {
      AcceptBounded(g, s[0]);
      FeedBounded(Accept(g, s[0]).value, s[1..]);
    }
  }

  /** Literal payload is counted and otherwise ignored: it leaves nesting and quoting alone. */
  lemma {:induction false} PayloadIsOpaque(g: Guard, payload: string)
    requires |payload| <= g.literal && g.total + |payload| <= MAX_SESSION
    ensures Feed(g, payload) ==
            Fed(|payload|, Some(g.(total := g.total + |payload|, literal := g.literal - |payload|)))
    decreases |payload|
  {
    hide ScanByte;
    if payload != "" {
      PayloadIsOpaque(g.(total := g.total + 1, literal := g.literal - 1), payload[1..]);
    }
  }

  /** Replacing a literal's payload changes nothing that follows. */
  lemma PayloadDoesNotMatter(g: Guard, a: string, b: string, rest: string)
    requires |a| == |b| <= g.literal
    ensures Feed(g, a + rest) == Feed(g, b + rest)
  {
    hide Accept;
    SamePayload(g, a, b);
    FeedAppend(g, a, rest);
    FeedAppend(g, b, rest);
  }

  lemma {:induction false} SamePayload(g: Guard, a: string, b: string)
    requires |a| == |b| <= g.literal
    ensures Feed(g, a) == Feed(g, b)
    decreases |a|
  {
    hide ScanByte;
    if a != "" {
      assert Accept(g, a[0]) == Accept(g, b[0]);
      if Accept(g, a[0]).Some? {
        SamePayload(Accept(g, a[0]).value, a[1..], b[1..]);
      }
    }
  }

  // --- What nesting means -------------------------------------------------------------------------

  function Count(s: string, c: char): nat {
    if s == "" then 0 else Count(s[..|s| - 1], c) + if s[|s| - 1] == c then 1 else 0
  }

  /** Protocol text outside quotes that does not end a line. */
  predicate Plain(s: string) {
    '"' !in s && '\n' !in s
  }

  /** Nesting after `s`, measured by counting parentheses, is inside the limits. */
  ghost predicate InLimits(g: Guard, s: string) {
    && 0 <= g.depth + Count(s, '(') - Count(s, ')') <= MAX_DEPTH
    && g.lists + Count(s, '(') <= MAX_LISTS
  }

  ghost predicate PrefixesInLimits(g: Guard, s: string) {
    forall k :: 0 <= k <= |s| ==> InLimits(g, s[..k])
  }

  ghost function AfterPlain(g: Guard, s: string): Guard
  {
    g.(total := g.total + |s|, line := g.line + s, depth := g.depth + Count(s, '(') - Count(s, ')'),
       lists := g.lists + Count(s, '('))
  }

  lemma PlainByte(g: Guard, s: string, c: char)
    requires !g.quoted && g.literal == 0 && Plain([c])
    requires g.total + |s| < MAX_SESSION && |g.line| + |s| < MAX_LINE
    requires InLimits(g, s)
    ensures Accept(AfterPlain(g, s), c) == if InLimits(g, s + [c]) then Some(AfterPlain(g, s + [c])) else None
  {
    hide EndLine;
    assert (s + [c])[..|s|] == s;
    assert c == [c][0];
    assert g.line + s + [c] == g.line + (s + [c]);
  }

  /**
   Unquoted text passes exactly when every prefix keeps the parentheses balanced
   within the depth and list limits, and the machine's depth is the count of open lists.
   */
  lemma {:induction false} PlainPasses(g: Guard, s: string)
    requires !g.quoted && g.literal == 0 && Plain(s) && InLimits(g, "")
    requires g.total + |s| <= MAX_SESSION && |g.line| + |s| <= MAX_LINE
    ensures Feed(g, s).state.Some? <==> PrefixesInLimits(g, s)
    ensures Feed(g, s).state.Some? ==> Feed(g, s).state.value == AfterPlain(g, s)
    decreases |s|
  {
    hide Accept, InLimits;
    if s == "" {
      assert g.line + "" == g.line;
    } else {
      var n := |s| - 1;
      var front := s[..n];
      PlainPasses(g, front);
      assert s == front + [s[n]];
      assert s[n] in s;
      PrefixesSplit(g, s);
      FeedAppend(g, front, [s[n]]);
      if PrefixesInLimits(g, front) {
        assert front == front[..n];
        PlainByte(g, front, s[n]);
        FeedOne(g, s, n, AfterPlain(g, front));
        assert s[..n + 1] == s;
      }
    }
  }

  lemma PrefixesSplit(g: Guard, s: string)
    requires s != ""
    ensures PrefixesInLimits(g, s) <==> PrefixesInLimits(g, s[..|s| - 1]) && InLimits(g, s)
  {
    hide InLimits;
    var front := s[..|s| - 1];
    assert s[..|s|] == s;
    assert forall k :: 0 <= k < |s| ==> front[..k] == s[..k];
  }

  /** Inside quotes no byte nests: text with neither quote, escape nor newline only grows the counters. */
  lemma {:induction false} QuotedIsOpaque(g: Guard, s: string)
    requires g.quoted && !g.escaped && g.literal == 0 && Plain(s) && '\\' !in s
    requires g.total + |s| <= MAX_SESSION && |g.line| + |s| <= MAX_LINE && g.quotedLength + |s| <= MAX_QUOTED
    ensures Feed(g, s) ==
            Fed(|s|, Some(g.(total := g.total + |s|, line := g.line + s, quotedLength := g.quotedLength + |s|)))
    decreases |s|
  {
    hide EndLine;
    if s == "" {
      assert g.line + "" == g.line;
    } else {
      var h := g.(total := g.total + 1, line := g.line + [s[0]], quotedLength := g.quotedLength + 1);
      assert s[0] in s && Accept(g, s[0]) == Some(h);
      QuotedIsOpaque(h, s[1..]);
      assert g.line + [s[0]] + s[1..] == g.line + s;
    }
  }

  // --- Lines, literals and quoted strings ---------------------------------------------------------

  /** The text between an announcement's braces: a numeral, perhaps signed, perhaps non-synchronising. */
  function Inner(signed: bool, digits: string, plus: bool): string {
    (if signed then "+" else "") + digits + if plus then "+" else ""
  }

  predicate Announces(line: string, prefix: string, signed: bool, digits: string, plus: bool) {
    digits != "" && AllDigits(digits) && line == prefix + "{" + Inner(signed, digits, plus) + "}"
  }

  lemma InnerReads(signed: bool, digits: string, plus: bool)
    requires digits != "" && AllDigits(digits) && Value(digits) <= MAX_INT64
    ensures var inner := Inner(signed, digits, plus);
            && inner != "" && '{' !in inner
            && ParseInt(if inner[|inner| - 1] == '+' then inner[..|inner| - 1] else inner) == Some(Value(digits))
  {
    hide Value;
    var inner, number := Inner(signed, digits, plus), (if signed then "+" else "") + digits;
    assert IsDigit(digits[0]) && IsDigit(digits[|digits| - 1]);
    assert number[|number| - 1] == digits[|digits| - 1];
    assert inner[|inner| - 1] == if plus then '+' else number[|number| - 1];
    assert plus ==> inner[..|inner| - 1] == number;
    assert !plus ==> inner == number;
    assert signed ==> number[1..] == digits;
    assert !signed ==> number == digits;
  }

  lemma AnnouncedSize(line: string, prefix: string, signed: bool, digits: string, plus: bool)
    requires Announces(line, prefix, signed, digits, plus) && Value(digits) <= MAX_INT64
    ensures LiteralSize(line) == if Value(digits) > MAX_SESSION then OverLimit else Size(Value(digits))
  {
    hide LastIndexOf, ParseInt, Value;
    InnerReads(signed, digits, plus);
    BracedText(prefix, Inner(signed, digits, plus));
  }

  lemma NumberReads(number: string) returns (signed: bool, digits: string)
    requires ParseInt(number).Some? && ParseInt(number).value > 0
    ensures digits != "" && AllDigits(digits) && number == (if signed then "+" else "") + digits
    ensures Value(digits) == ParseInt(number).value <= MAX_INT64
  {
    signed := number[0] == '+';
    digits := if signed then number[1..] else number;
  }

  /** The braces around a positive size, and the number between them. */
  lemma SizeInBraces(line: string) returns (prefix: string, inner: string)
    requires LiteralSize(line) == OverLimit || LiteralSize(line).bytes > 0
    ensures line == prefix + "{" + inner + "}"
    ensures var n := ParseInt(if inner != "" && inner[|inner| - 1] == '+' then inner[..|inner| - 1] else inner);
            n.Some? && n.value > 0
  {
    hide ParseInt, LastIndexOf;
    var end := |line| - 1;
    var body := line[..end];
    var start := LastIndexOf(body, '{').value;
    prefix, inner := line[..start], line[start + 1..end];
    CutAt(line, start);
  }

  lemma CutAt(line: string, start: nat)
    requires start + 1 < |line| && line[start] == '{' && line[|line| - 1] == '}'
    ensures line == line[..start] + "{" + line[start + 1..|line| - 1] + "}"
  {
  }

  /** A line announces a positive size only in the form of an announcement of that number. */
  lemma SizeIsAnnounced(line: string) returns (prefix: string, signed: bool, digits: string, plus: bool)
    requires LiteralSize(line) == OverLimit || LiteralSize(line).bytes > 0
    ensures Announces(line, prefix, signed, digits, plus) && Value(digits) <= MAX_INT64
  {
    hide ParseInt, Value, LiteralSize;
    var inner;
    prefix, inner := SizeInBraces(line);
    plus := inner != "" && inner[|inner| - 1] == '+';
    var number := if plus then inner[..|inner| - 1] else inner;
    signed, digits := NumberReads(number);
    assert inner == number + if plus then "+" else "";
  }

  /** The size read at the end of a line, in both directions. */
  lemma LiteralMeans(line: string, n: nat)
    requires n > 0
    ensures LiteralSize(line) == Size(n) <==>
              n <= MAX_SESSION && exists prefix, signed, digits, plus ::
                Announces(line, prefix, signed, digits, plus) && Value(digits) == n
    ensures LiteralSize(line) == OverLimit <==>
              exists prefix, signed, digits, plus ::
                Announces(line, prefix, signed, digits, plus) && MAX_SESSION < Value(digits) <= MAX_INT64
  {
    hide LiteralSize, Inner, Value;
    if LiteralSize(line) == OverLimit || LiteralSize(line).bytes > 0 {
      var prefix, signed, digits, plus := SizeIsAnnounced(line);
      AnnouncedSize(line, prefix, signed, digits, plus);
    }
    forall prefix, signed, digits, plus | Announces(line, prefix, signed, digits, plus) && Value(digits) <= MAX_INT64
      ensures LiteralSize(line) == if Value(digits) > MAX_SESSION then OverLimit else Size(Value(digits))
    {
      AnnouncedSize(line, prefix, signed, digits, plus);
    }
  }

  lemma {:induction false} NoParens(a: string, b: string)
    requires '(' !in b && ')' !in b
    ensures Count(a + b, '(') == Count(a, '(') && Count(a + b, ')') == Count(a, ')')
    decreases |b|
  {
    if b == "" {
      assert a + b == a;
    } else {
      var n := |b| - 1;
      assert (a + b)[..|a + b| - 1] == a + b[..n] && b[n] in b;
      NoParens(a, b[..n]);
    }
  }

  lemma QuietPrefixes(g: Guard, a: string, b: string)
    requires PrefixesInLimits(g, a) && '(' !in b && ')' !in b
    ensures PrefixesInLimits(g, a + b)
  {
    hide Count;
    var s := a + b;
    forall k | 0 <= k <= |s| ensures InLimits(g, s[..k]) {
      if k <= |a| {
        assert s[..k] == a[..k];
      } else {
        assert s[..k] == a + b[..k - |a|] && a == a[..|a|];
        NoParens(a, b[..k - |a|]);
      }
    }
  }

  /** The state after an unquoted line that announced `n` bytes. */
  ghost function AfterLine(g: Guard, text: string, n: nat): Guard {
    var depth := g.depth + Count(text, '(') - Count(text, ')');
    Guard(g.total + |text| + 2, "", n, depth, if n == 0 && depth == 0 then 0 else g.lists + Count(text, '('), false, 0, false)
  }

  /** A line feed after a carriage return ends an unquoted line and starts its literal. */
  lemma LineFeed(g: Guard, text: string, n: nat)
    requires !g.quoted && g.literal == 0 && g.line == text + "\r" && |g.line| < MAX_LINE && g.total < MAX_SESSION
    requires LiteralSize(text) == Size(n)
    ensures Accept(g, '\n') ==
            Some(Guard(g.total + 1, "", n, g.depth, if n == 0 && g.depth == 0 then 0 else g.lists, false, 0, false))
  {
    hide LiteralSize;
    var line := g.line + ['\n'];
    assert line[..|line| - 2] == text && line[|line| - 2] == '\r';
  }

  /** A whole unquoted line: balanced, then its end resets the line and starts the announced literal. */
  lemma LinePasses(g: Guard, text: string, n: nat)
    requires !g.quoted && g.literal == 0 && g.line == "" && Plain(text) && PrefixesInLimits(g, text)
    requires g.total + |text| + 2 <= MAX_SESSION && |text| + 2 <= MAX_LINE
    requires LiteralSize(text) == Size(n)
    ensures Feed(g, text + "\r\n") == Fed(|text| + 2, Some(AfterLine(g, text, n)))
  {
    hide LiteralSize, Accept, Feed, InLimits, Count;
    var body := text + "\r";
    assert text[..0] == "";
    QuietPrefixes(g, text, "\r");
    PlainPasses(g, body);
    NoParens(text, "\r");
    var h := AfterPlain(g, body);
    assert "" + body == body;
    LineFeed(h, text, n);
    var whole := text + "\r\n";
    assert whole[..|body|] == body && whole[|body|] == '\n' && whole[..|body| + 1] == whole;
    FeedOne(g, whole, |body|, h);
  }

  /**
   An announced literal: after a balanced prefix and `{n}`, every payload of n bytes passes
   unscanned, and the next byte is protocol again, at the depth counted from the prefix alone.
   */
  lemma AnnouncedPayloadPasses(g: Guard, prefix: string, digits: string, plus: bool, payload: string)
    requires !g.quoted && g.literal == 0 && g.line == "" && Plain(prefix) && PrefixesInLimits(g, prefix)
    requires digits != "" && AllDigits(digits) && 0 < Value(digits) == |payload| <= MAX_SESSION
    requires g.total + |prefix| + |digits| + 5 + |payload| <= MAX_SESSION && |prefix| + |digits| + 5 <= MAX_LINE
    ensures var line := prefix + "{" + Inner(false, digits, plus) + "}" + "\r\n";
            var depth := g.depth + Count(prefix, '(') - Count(prefix, ')');
            Feed(g, line + payload) ==
            Fed(|line| + |payload|,
                Some(Guard(g.total + |line| + |payload|, "", 0, depth, g.lists + Count(prefix, '('), false, 0, false)))
  {
    hide Feed, InLimits, PrefixesInLimits, LiteralSize, Value, Count;
    var announcement := "{" + Inner(false, digits, plus) + "}";
    var text := prefix + announcement;
    assert text == prefix + "{" + Inner(false, digits, plus) + "}";
    AnnouncementIsQuiet(digits, plus);
    AnnouncedSize(text, prefix, false, digits, plus);
    QuietPrefixes(g, prefix, announcement);
    NoParens(prefix, announcement);
    LinePasses(g, text, |payload|);
    var h := AfterLine(g, text, |payload|);
    PayloadIsOpaque(h, payload);
    FeedAppend(g, text + "\r\n", payload);
  }

  lemma AnnouncementIsQuiet(digits: string, plus: bool)
    requires AllDigits(digits)
    ensures var announcement := "{" + Inner(false, digits, plus) + "}";
            Plain(announcement) && '(' !in announcement && ')' !in announcement && |announcement| <= |digits| + 3
  {
    var announcement := "{" + Inner(false, digits, plus) + "}";
    forall c | c in announcement ensures IsDigit(c) || c == '{' || c == '}' || c == '+' {
      var i :| 0 <= i < |announcement| && announcement[i] == c;
      assert 1 <= i <= |digits| ==> announcement[i] == digits[i - 1];
    }
  }

  /** A line that announces nothing leaves no literal pending and no quoting: the next byte is protocol. */
  lemma QuietLinePasses(g: Guard, text: string)
    requires !g.quoted && g.literal == 0 && g.line == "" && Plain(text) && PrefixesInLimits(g, text)
    requires g.total + |text| + 2 <= MAX_SESSION && |text| + 2 <= MAX_LINE
    requires text == "" || text[|text| - 1] != '}'
    ensures var depth := g.depth + Count(text, '(') - Count(text, ')');
            Feed(g, text + "\r\n") ==
            Fed(|text| + 2,
                Some(Guard(g.total + |text| + 2, "", 0, depth, if depth == 0 then 0 else g.lists + Count(text, '('), false, 0, false)))
  {
    hide Feed, InLimits, PrefixesInLimits, Plain, Count, LiteralSize;
    NothingAnnounced(text);
    LinePasses(g, text, 0);
  }

  lemma NothingAnnounced(text: string)
    requires text == "" || text[|text| - 1] != '}'
    ensures LiteralSize(text) == Size(0)
  {
  }

  /** Quoted text on the wire: quotes and backslashes escaped. */
  function Quote(content: string): string {
    if content == "" then ""
    else Unit(content[0]) + Quote(content[1..])
  }

  function Unit(c: char): string {
    if c == '"' || c == '\\' then ['\\', c] else [c]
  }

  /** Inside quotes, escaped quotes do not close and parentheses do not nest. */
  lemma {:induction false} QuotedBodyPasses(g: Guard, content: string)
    requires g.quoted && !g.escaped && g.literal == 0 && '\n' !in content
    requires g.total + |Quote(content)| <= MAX_SESSION && |g.line| + |Quote(content)| <= MAX_LINE
    requires g.quotedLength + |Quote(content)| <= MAX_QUOTED
    ensures var wire := Quote(content);
            Feed(g, wire) ==
            Fed(|wire|, Some(g.(total := g.total + |wire|, line := g.line + wire, quotedLength := g.quotedLength + |wire|)))
    decreases |content|
  {
    hide Feed;
    if content == "" {
      FeedEmpty(g);
      assert g.line + "" == g.line;
    } else {
      var unit, rest := Unit(content[0]), Quote(content[1..]);
      var h := g.(total := g.total + |unit|, line := g.line + unit, quotedLength := g.quotedLength + |unit|);
      assert content[0] in content;
      QuotedUnit(g, content[0]);
      QuotedBodyPasses(h, content[1..]);
      FeedAppend(g, unit, rest);
      Regroup(g.line, unit, rest);
    }
  }

  lemma FeedEmpty(g: Guard)
    ensures Feed(g, "") == Fed(0, Some(g))
  {
  }

  lemma FeedByte(g: Guard, c: char)
    ensures Feed(g, [c]) == if Accept(g, c).Some? then Fed(1, Accept(g, c)) else Fed(0, None)
  {
    hide Accept;
    assert [c][1..] == "";
  }

  lemma QuotedUnit(g: Guard, c: char)
    requires g.quoted && !g.escaped && g.literal == 0 && c != '\n'
    requires g.total + |Unit(c)| <= MAX_SESSION && |g.line| + |Unit(c)| <= MAX_LINE && g.quotedLength + |Unit(c)| <= MAX_QUOTED
    ensures var unit := Unit(c);
            Feed(g, unit) ==
            Fed(|unit|, Some(g.(total := g.total + |unit|, line := g.line + unit, quotedLength := g.quotedLength + |unit|)))
  {
    hide Feed;
    if c == '"' || c == '\\' {
      var middle := g.(total := g.total + 1, line := g.line + ['\\'], quotedLength := g.quotedLength + 1, escaped := true);
      QuotedByte(g, '\\');
      QuotedByte(middle, c);
      FeedByte(g, '\\');
      FeedByte(middle, c);
      FeedAppend(g, ['\\'], [c]);
      assert Unit(c) == ['\\'] + [c];
      Regroup(g.line, ['\\'], [c]);
    } else {
      QuotedByte(g, c);
      FeedByte(g, c);
    }
  }

  /** One byte inside quotes that does not close them. */
  lemma QuotedByte(g: Guard, c: char)
    requires g.quoted && g.literal == 0 && c != '\n' && (g.escaped || c != '"')
    requires g.total < MAX_SESSION && |g.line| < MAX_LINE && g.quotedLength < MAX_QUOTED
    ensures Accept(g, c) ==
            Some(g.(total := g.total + 1, line := g.line + [c], quotedLength := g.quotedLength + 1,
                    escaped := !g.escaped && c == '\\'))
  {
    hide EndLine;
  }

  /** A whole quoted string leaves nesting alone and ends outside quotes, whatever it holds. */
  lemma QuotedStringPasses(g: Guard, content: string)
    requires !g.quoted && !g.escaped && g.literal == 0 && '\n' !in content
    requires g.total + |Quote(content)| + 2 <= MAX_SESSION && |g.line| + |Quote(content)| + 2 <= MAX_LINE
    requires |Quote(content)| + 1 <= MAX_QUOTED
    ensures var wire := ['"'] + Quote(content) + ['"'];
            Feed(g, wire) ==
            Fed(|wire|, Some(g.(total := g.total + |wire|, line := g.line + wire, quotedLength := |wire| - 1)))
  {
    hide Feed, Quote;
    var body := Quote(content);
    var inside := g.(total := g.total + 1, line := g.line + ['"'], quoted := true, quotedLength := 0);
    OpeningQuote(g);
    FeedByte(g, '"');
    QuotedBodyPasses(inside, content);
    var h := inside.(total := inside.total + |body|, line := inside.line + body, quotedLength := |body|);
    ClosingQuote(h);
    FeedByte(h, '"');
    FeedAppend(g, ['"'], body);
    FeedAppend(g, ['"'] + body, ['"']);
    Regroup(g.line, ['"'], body);
    Regroup(g.line, ['"'] + body, ['"']);
  }

  lemma OpeningQuote(g: Guard)
    requires !g.quoted && g.literal == 0 && g.total < MAX_SESSION && |g.line| < MAX_LINE
    ensures Accept(g, '"') ==
            Some(g.(total := g.total + 1, line := g.line + ['"'], quoted := true, quotedLength := 0))
  {
    hide EndLine;
  }

  lemma ClosingQuote(g: Guard)
    requires g.quoted && !g.escaped && g.literal == 0
    requires g.total < MAX_SESSION && |g.line| < MAX_LINE && g.quotedLength < MAX_QUOTED
    ensures Accept(g, '"') ==
            Some(g.(total := g.total + 1, line := g.line + ['"'], quoted := false, quotedLength := g.quotedLength + 1))
  {
    hide EndLine;
  }

  // --- The connection --------------------------------------------------------------------------------

  class Connection {
    var total: nat
    var line: string
    var literalRemaining: nat
    var depth: int
    var lists: nat
    var quoted: bool
    var quotedLength: nat
    var escaped: bool

    function View(): Guard
      reads this
    {
      Guard(total, line, literalRemaining, depth, lists, quoted, quotedLength, escaped)
    }

    constructor ()
      ensures View() == START
    {
      total, line, literalRemaining, depth, lists := 0, "", 0, 0, 0;
      quoted, quotedLength, escaped := false, 0, false;
    }

    method ScanProtocolByte(b: char) returns (ok: bool)
      modifies this
      ensures ok == ScanByte(old(View()), b).Some?
      ensures ok ==> View() == ScanByte(old(View()), b).value
    {
      hide LiteralSize;
      line := line + [b];
      if |line| > MAX_LINE {
        return false;
      }
      if quoted {
        quotedLength := quotedLength + 1;
        if quotedLength > MAX_QUOTED {
          return false;
        }
        if escaped {
          escaped := false;
        } else if b == '\\' {
          escaped := true;
        } else if b == '"' {
          quoted := false;
        }
      } else if b == '"' {
        quoted, quotedLength := true, 0;
      } else if b == '(' {
        depth, lists := depth + 1, lists + 1;
        if depth > MAX_DEPTH || lists > MAX_LISTS {
          return false;
        }
      } else if b == ')' {
        depth := depth - 1;
        if depth < 0 {
          return false;
        }
      }
      if |line| >= 2 && line[|line| - 2] == '\r' && b == '\n' {
        var size := LiteralSize(line[..|line| - 2]);
        if size.OverLimit? {
          return false;
        }
        literalRemaining, line := size.bytes, "";
        quoted, quotedLength, escaped := false, 0, false;
        if literalRemaining == 0 && depth == 0 {
          lists := 0;
        }
      }
      ok := true;
    }

    /** A read delivers exactly the bytes before the first violation. */
    method Read(received: string) returns (accepted: nat, ok: bool)
      modifies this
      ensures accepted == Feed(old(View()), received).passed
      ensures ok == Feed(old(View()), received).state.Some?
      ensures ok ==> View() == Feed(old(View()), received).state.value
    {
      hide ScanByte;
      ghost var start := View();
      accepted := 0;
      while accepted < |received|
        invariant accepted <= |received|
        invariant Feed(start, received[..accepted]) == Fed(accepted, Some(View()))
      {
        ghost var before := View();
        var b := received[accepted];
        FeedOne(start, received, accepted, before);
        if total >= MAX_SESSION {
          return accepted, false;
        }
        total := total + 1;
        if literalRemaining > 0 {
          literalRemaining := literalRemaining - 1;
        } else {
          var scanned := ScanProtocolByte(b);
          if !scanned {
            return accepted, false;
          }
        }
        accepted := accepted + 1;
      }
      assert received[..accepted] == received;
      ok := true;
    }
  }

  /** Extending a passed prefix by one byte. */
  lemma FeedOne(g: Guard, s: string, n: nat, h: Guard)
    requires n < |s| && Feed(g, s[..n]) == Fed(n, Some(h))
    ensures Accept(h, s[n]).None? ==> Feed(g, s) == Fed(n, None)
    ensures Accept(h, s[n]).Some? ==> Feed(g, s[..n + 1]) == Fed(n + 1, Accept(h, s[n]))
  {
    hide Accept;
    FeedAppend(g, s[..n], [s[n]]);
    assert s[..n + 1] == s[..n] + [s[n]];
    FeedAppend(g, s[..n], s[n..]);
    assert s == s[..n] + s[n..];
    var one := [s[n]];
    assert one[1..] == "" && s[n..][0] == s[n];
    assert Accept(h, s[n]).Some? ==> Feed(Accept(h, s[n]).value, one[1..]) == Fed(0, Some(Accept(h, s[n]).value));
  }

  lemma {:induction false} JoinedPrefix(chunks: seq<string>, i: nat) returns (rest: string)
    requires i <= |chunks|
    ensures Joined(chunks) == Joined(chunks[..i]) + rest
    decreases |chunks|
  {
    if i == |chunks| {
      rest := "";
      assert chunks[..i] == chunks;
    } else {
      var n := |chunks| - 1;
      rest := JoinedPrefix(chunks[..n], i);
      assert chunks[..n][..i] == chunks[..i];
      assert Joined(chunks[..i]) + (rest + chunks[n]) == Joined(chunks[..i]) + rest + chunks[n];
      rest := rest + chunks[n];
    }
  }

  /** Chunk independence: however the stream is split, the client sees its bytes up to the first violation. */
  method ReadChunks(chunks: seq<string>) returns (delivered: string, ok: bool)
    ensures var s := Joined(chunks); delivered == s[..Feed(START, s).passed] && ok == Feed(START, s).state.Some?
  {
    hide Accept, Feed;
    var conn := new Connection();
    delivered := "";
    FeedNothing();
    for i := 0 to |chunks|
      invariant fresh(conn)
      invariant delivered == Joined(chunks[..i])
      invariant Feed(START, delivered) == Fed(|delivered|, Some(conn.View()))
    {
      assert chunks[..i + 1][..i] == chunks[..i];
      FeedAppend(START, delivered, chunks[i]);
      ghost var seen := delivered + chunks[i];
      ghost var rest := JoinedPrefix(chunks, i + 1);
      var accepted, passed := conn.Read(chunks[i]);
      delivered := delivered + chunks[i][..accepted];
      if !passed {
        FeedAppend(START, seen, rest);
        return delivered, false;
      }
      assert chunks[i][..accepted] == chunks[i];
    }
    assert chunks[..|chunks|] == chunks;
    ok := true;
  }

  lemma FeedNothing()
    ensures Feed(START, "") == Fed(0, Some(START))
  {
  }
}
