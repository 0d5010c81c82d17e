/**
 One logical vCard line: quote-aware delimiters, the split of its head, and the
 property it denotes. Bytes are modelled as characters.
 */
module RawProperty {
  import opened Text
  import opened Wrappers

  // --- Quoting -----------------------------------------------------------------------------

  /** Where a scan stands: outside quotes, inside them, or just after a backslash inside them. */
  datatype Mode = Plain | Quoted | Escaped

  function Next(mode: Mode, c: char): Mode {
    match mode
    case Plain => if c == '"' then Quoted else Plain
    case Quoted => if c == '"' then Plain else if c == '\\' then Escaped else Quoted
    case Escaped => Quoted
  }

  /** The mode before index `i`. */
  function ModeAt(value: string, i: nat): Mode
    requires i <= |value|
  {
    if i == 0 then Plain else Next(ModeAt(value, i - 1), value[i - 1])
  }

  /** `delimiter` stands at `i` outside quotes. */
  predicate OutsideAt(value: string, delimiter: char, i: nat) {
    i < |value| && value[i] == delimiter && ModeAt(value, i) == Plain
  }

  predicate Balanced(value: string) {
    ModeAt(value, |value|) == Plain
  }

  /** The first delimiter outside quotes at or after `i`. */
  function FirstOutside(value: string, delimiter: char, i: nat): (r: Option<nat>)
    requires i <= |value|
    ensures r.Some? ==> i <= r.value && OutsideAt(value, delimiter, r.value)
    ensures r.Some? ==> forall k :: i <= k < r.value ==> !OutsideAt(value, delimiter, k)
    ensures r.None? ==> forall k :: i <= k < |value| ==> !OutsideAt(value, delimiter, k)
    decreases |value| - i
  {
    if i == |value| then None
    else if OutsideAt(value, delimiter, i) then Some(i)
    else FirstOutside(value, delimiter, i + 1)
  }

  lemma {:induction false} FirstOutsideSkips(value: string, delimiter: char, i: nat, j: nat)
    requires i <= j <= |value| && forall k :: i <= k < j ==> !OutsideAt(value, delimiter, k)
    ensures FirstOutside(value, delimiter, i) == FirstOutside(value, delimiter, j)
    decreases j - i
  {
    if i < j { FirstOutsideSkips(value, delimiter, i + 1, j); }
  }

  datatype Delimiter = At(index: nat) | Missing | Unbalanced

  /** The scan with its index skips finds the first delimiter outside quotes. */
  method DelimiterOutsideQuotes(value: string, delimiter: char) returns (r: Delimiter)
    requires delimiter != '"' && delimiter != '\\'
    ensures r.At? <==> FirstOutside(value, delimiter, 0).Some?
    ensures r.At? ==> r.index == FirstOutside(value, delimiter, 0).value
    ensures r.Missing? ==> Balanced(value)
    ensures r.Unbalanced? ==> !Balanced(value)
  {
    var quoted := false;
    var index := 0;
    while index < |value|
      invariant 0 <= index <= |value|
      invariant ModeAt(value, index) == if quoted then Quoted else Plain
      invariant forall k :: 0 <= k < index ==> !OutsideAt(value, delimiter, k)
    {
      if value[index] == '\\' {
        if quoted && index + 1 < |value| {
          assert ModeAt(value, index + 1) == Escaped;
          index := index + 1;
        } else if quoted {
          assert ModeAt(value, |value|) == Escaped;
          FirstOutsideSkips(value, delimiter, 0, |value|);
          return Unbalanced;
        }
      } else if value[index] == '"' {
        quoted := !quoted;
      } else if value[index] == delimiter && !quoted {
        FirstOutsideSkips(value, delimiter, 0, index);
        return At(index);
      }
      index := index + 1;
    }
    FirstOutsideSkips(value, delimiter, 0, |value|);
    r := if quoted then Unbalanced else Missing;
  }

  /** The pieces of `value[start..]` cut at every delimiter outside quotes from `i` on. */
  function SplitFrom(value: string, delimiter: char, start: nat, i: nat): (parts: seq<string>)
    requires start <= i <= |value|
    ensures |parts| > 0
    decreases |value| - i
  {
    if i == |value| then [value[start..]]
    else if OutsideAt(value, delimiter, i) then [value[start..i]] + SplitFrom(value, delimiter, i + 1, i + 1)
    else SplitFrom(value, delimiter, start, i + 1)
  }

  /** Splitting loses nothing. */
  lemma {:induction false} JoinSplit(value: string, delimiter: char, start: nat, i: nat)
    requires start <= i <= |value|
    ensures Join(SplitFrom(value, delimiter, start, i), delimiter) == value[start..]
    decreases |value| - i
  {
    hide OutsideAt;
    if i < |value| {
      if OutsideAt(value, delimiter, i) {
        JoinSplit(value, delimiter, i + 1, i + 1);
        var rest := SplitFrom(value, delimiter, i + 1, i + 1);
        var parts := [value[start..i]] + rest;
        assert parts[1..] == rest;
        assert value[i] == delimiter by { Delimits(value, delimiter, i); }
        assert value[start..] == value[start..i] + [value[i]] + value[i + 1..];
      } else {
        JoinSplit(value, delimiter, start, i + 1);
      }
    }
  }

  lemma Delimits(value: string, delimiter: char, i: nat)
    requires OutsideAt(value, delimiter, i)
    ensures i < |value| && value[i] == delimiter
  {
  }

  lemma {:induction false} SplitSkips(value: string, delimiter: char, start: nat, i: nat, j: nat)
    requires start <= i <= j <= |value| && forall k :: i <= k < j ==> !OutsideAt(value, delimiter, k)
    ensures SplitFrom(value, delimiter, start, i) == SplitFrom(value, delimiter, start, j)
    decreases j - i
  {
    if i < j { SplitSkips(value, delimiter, start, i + 1, j); }
  }

  method SplitOutsideQuotes(value: string, delimiter: char) returns (r: Option<seq<string>>)
    requires delimiter != '"' && delimiter != '\\'
    ensures r.Some? <==> Balanced(value)
    ensures r.Some? ==> r.value == SplitFrom(value, delimiter, 0, 0)
  {
    var parts: seq<string> := [];
    var start, index := 0, 0;
    var quoted := false;
    while index < |value|
      invariant 0 <= start <= index <= |value|
      invariant ModeAt(value, index) == if quoted then Quoted else Plain
      invariant SplitFrom(value, delimiter, 0, 0) == parts + SplitFrom(value, delimiter, start, index)
    {
      ghost var before := index;
      if value[index] == '\\' {
        if quoted && index + 1 < |value| {
          assert ModeAt(value, index + 1) == Escaped;
          index := index + 1;
        } else if quoted {
          assert ModeAt(value, |value|) == Escaped;
          return None;
        }
      } else if value[index] == '"' {
        quoted := !quoted;
      } else if value[index] == delimiter && !quoted {
        parts := parts + [value[start..index]];
        start := index + 1;
      }
      if start <= before {
        SplitSkips(value, delimiter, start, before, index + 1);
      }
      index := index + 1;
    }
    r := if quoted then None else Some(parts + [value[start..]]);
  }

  // --- Tokens and parameters --------------------------------------------------------------------

  predicate TokenChar(c: char) {
    'A' <= c <= 'Z' || 'a' <= c <= 'z' || '0' <= c <= '9' || c == '-'
  }

  predicate ValidToken(s: string) {
    s != "" && forall i :: 0 <= i < |s| ==> TokenChar(s[i])
  }

  predicate ValidItem(item: string) {
    && item != ""
    && (if item[0] == '"' then |item| >= 2 && item[|item| - 1] == '"' else '"' !in item)
  }

  predicate ValidParameterValue(value: string) {
    && value != "" && Balanced(value)
    && forall item :: item in SplitFrom(value, ',', 0, 0) ==> ValidItem(item)
  }

  predicate ValidParameter(parameter: string) {
    var equals := FirstOutside(parameter, '=', 0);
    && equals.Some? && equals.value > 0
    && ValidToken(parameter[..equals.value])
    && ValidParameterValue(parameter[equals.value + 1..])
  }

  function Upper(s: string): string {
    seq(|s|, i requires 0 <= i < |s| => if 'a' <= s[i] <= 'z' then (s[i] as int - 32) as char else s[i])
  }

  // --- The property ---------------------------------------------------------------------------------

  datatype Property = Property(group: string, name: string, value: string, hasParams: bool, raw: string)

  /** The property a logical line denotes, keeping the physical bytes it came from. */
  function ParseProperty(logical: string, chunks: string): (r: Option<Property>)
    ensures r.Some? ==> r.value.raw == chunks
  {
    var colon := FirstOutside(logical, ':', 0);
    if colon.None? || colon.value == 0 then None
    else
      var head := logical[..colon.value];
      if !Balanced(head) then None
      else
        var parts := SplitFrom(head, ';', 0, 0);
        var identity := parts[0];
        var dot := IndexOf(identity, '.');
        var group := if dot.Some? then identity[..dot.value] else "";
        var name := if dot.Some? then identity[dot.value + 1..] else identity;
        if identity == "" || (dot.Some? && '.' in name) then None
        else if !ValidToken(name) || (group != "" && !ValidToken(group)) then None
        else if exists i :: 1 <= i < |parts| && !ValidParameter(parts[i]) then None
        else Some(Property(group, Upper(name), logical[colon.value + 1..], |parts| > 1, chunks))
  }

  /** The loops of the property parser compute exactly that property. */
  method ParseRawProperty(logical: string, chunks: string) returns (r: Option<Property>)
    ensures r == ParseProperty(logical, chunks)
  {
    hide FirstOutside, SplitFrom, IndexOf, ValidToken, ValidParameter, Upper, Balanced;
    var colon := DelimiterOutsideQuotes(logical, ':');
    if !colon.At? || colon.index == 0 {
      return None;
    }
    var head := logical[..colon.index];
    var split := SplitOutsideQuotes(head, ';');
    if split.None? {
      return None;
    }
    var parts := split.value;
    var identity := parts[0];
    var dot := IndexOf(identity, '.');
    var group := if dot.Some? then identity[..dot.value] else "";
    var name := if dot.Some? then identity[dot.value + 1..] else identity;
    if identity == "" || (dot.Some? && '.' in name) || !ValidToken(name) || (group != "" && !ValidToken(group)) {
      return None;
    }
    for i := 1 to |parts|
      invariant forall k :: 1 <= k < i ==> ValidParameter(parts[k])
    {
      if !ValidParameter(parts[i]) {
        return None;
      }
    }
    r := Some(Property(group, Upper(name), logical[colon.index + 1..], |parts| > 1, chunks));
  }

  // --- Writing a property ---------------------------------------------------------------------------

  lemma {:induction false} ModeOfPrefix(a: string, b: string, i: nat)
    requires i <= |a|
    ensures ModeAt(a + b, i) == ModeAt(a, i)
  {
    if i > 0 { ModeOfPrefix(a, b, i - 1); }
  }

  /** After a balanced text the scan starts afresh. */
  lemma {:induction false} ModeOfRest(a: string, b: string, i: nat)
    requires Balanced(a) && i <= |b|
    ensures ModeAt(a + b, |a| + i) == ModeAt(b, i)
  {
    if i == 0 {
      ModeOfPrefix(a, b, |a|);
    } else {
      ModeOfRest(a, b, i - 1);
      assert (a + b)[|a| + i - 1] == b[i - 1];
    }
  }

  /** Text whose delimiters of this kind are all inside quotes. */
  ghost predicate Hides(s: string, delimiter: char) {
    Balanced(s) && forall i :: 0 <= i < |s| ==> !OutsideAt(s, delimiter, i)
  }

  lemma OutsideOfPrefix(a: string, b: string, delimiter: char, i: nat)
    requires i < |a|
    ensures OutsideAt(a + b, delimiter, i) == OutsideAt(a, delimiter, i)
  {
    ModeOfPrefix(a, b, i);
  }

  lemma OutsideOfRest(a: string, b: string, delimiter: char, i: nat)
    requires Balanced(a) && i < |b|
    ensures OutsideAt(a + b, delimiter, |a| + i) == OutsideAt(b, delimiter, i)
  {
    ModeOfRest(a, b, i);
  }

  lemma HidesJoin(a: string, b: string, delimiter: char)
    requires Hides(a, delimiter) && Hides(b, delimiter)
    ensures Hides(a + b, delimiter)
  {
    ModeOfRest(a, b, |b|);
    forall i | 0 <= i < |a + b| ensures !OutsideAt(a + b, delimiter, i) {
      if i < |a| { OutsideOfPrefix(a, b, delimiter, i); } else { OutsideOfRest(a, b, delimiter, i - |a|); }
    }
  }

  /** Text without quotes hides every delimiter it does not hold. */
  lemma PlainHides(s: string, delimiter: char)
    requires '"' !in s && delimiter !in s
    ensures Hides(s, delimiter)
  {
    PlainMode(s, |s|);
  }

  lemma {:induction false} PlainMode(s: string, i: nat)
    requires '"' !in s && i <= |s|
    ensures ModeAt(s, i) == Plain
  {
    if i > 0 {
      PlainMode(s, i - 1);
      assert s[i - 1] in s;
    }
  }

  /** A quoted text without quotes or backslashes inside hides every delimiter. */
  lemma QuotedHides(body: string, delimiter: char)
    requires '"' !in body && '\\' !in body && delimiter != '"'
    ensures Hides(['"'] + body + ['"'], delimiter)
  {
    var s := ['"'] + body + ['"'];
    QuotedMode(body, |body|);
    assert s[|body| + 1] == '"' && ModeAt(s, |body| + 2) == Next(ModeAt(s, |body| + 1), s[|body| + 1]);
    forall i | 0 <= i < |s| ensures !OutsideAt(s, delimiter, i) {
      if 1 <= i <= |body| { QuotedMode(body, i - 1); }
    }
  }

  lemma {:induction false} QuotedMode(body: string, i: nat)
    requires '"' !in body && '\\' !in body && i <= |body|
    ensures ModeAt(['"'] + body + ['"'], i + 1) == Quoted
  {
    var s := ['"'] + body + ['"'];
    if i == 0 {
      assert ModeAt(s, 0) == Plain && s[0] == '"';
    } else {
      QuotedMode(body, i - 1);
      assert s[i] == body[i - 1] && body[i - 1] in body;
    }
  }

  lemma FirstDelimiter(a: string, b: string, delimiter: char)
    requires Hides(a, delimiter)
    ensures FirstOutside(a + [delimiter] + b, delimiter, 0) == Some(|a|)
  {
    var s := a + [delimiter] + b;
    assert s == a + ([delimiter] + b);
    forall k | 0 <= k < |a| ensures !OutsideAt(s, delimiter, k) {
      OutsideOfPrefix(a, [delimiter] + b, delimiter, k);
    }
    ModeOfPrefix(a, [delimiter] + b, |a|);
    FirstOutsideSkips(s, delimiter, 0, |a|);
  }

  lemma {:induction false} SplitOfRest(a: string, b: string, delimiter: char, start: nat, i: nat)
    requires Balanced(a) && start <= i <= |b|
    ensures SplitFrom(a + b, delimiter, |a| + start, |a| + i) == SplitFrom(b, delimiter, start, i)
    decreases |b| - i
  {
    hide OutsideAt, Balanced;
    assert (a + b)[|a| + start..] == b[start..];
    if i < |b| {
      OutsideOfRest(a, b, delimiter, i);
      assert (a + b)[|a| + start..|a| + i] == b[start..i];
      if OutsideAt(b, delimiter, i) {
        SplitOfRest(a, b, delimiter, i + 1, i + 1);
      } else {
        SplitOfRest(a, b, delimiter, start, i + 1);
      }
    }
  }

  /** Splitting a first piece that hides the delimiter. */
  lemma SplitFirst(a: string, b: string, delimiter: char)
    requires Hides(a, delimiter) && delimiter != '"' && delimiter != '\\'
    ensures SplitFrom(a + [delimiter] + b, delimiter, 0, 0) == [a] + SplitFrom(b, delimiter, 0, 0)
  {
    var s, front := a + [delimiter] + b, a + [delimiter];
    FirstDelimiter(a, b, delimiter);
    SplitSkips(s, delimiter, 0, 0, |a|);
    assert s[0..|a|] == a;
    assert Balanced(front) by {
      ModeOfPrefix(a, [delimiter], |a|);
      assert front[|front| - 1] == delimiter;
    }
    SplitOfRest(front, b, delimiter, 0, 0);
  }

  lemma SplitLast(a: string, delimiter: char)
    requires Hides(a, delimiter)
    ensures SplitFrom(a, delimiter, 0, 0) == [a]
  {
    SplitSkips(a, delimiter, 0, 0, |a|);
  }

  /** Splitting undoes joining pieces that hide the delimiter. */
  lemma {:induction false} SplitOfJoined(parts: seq<string>, delimiter: char)
    requires |parts| > 0 && delimiter != '"' && delimiter != '\\'
    requires forall i :: 0 <= i < |parts| ==> Hides(parts[i], delimiter)
    ensures SplitFrom(Join(parts, delimiter), delimiter, 0, 0) == parts
    decreases |parts|
  {
    hide Hides, SplitFrom;
    if |parts| == 1 {
      SplitLast(parts[0], delimiter);
    } else {
      SplitOfJoined(parts[1..], delimiter);
      SplitFirst(parts[0], Join(parts[1..], delimiter), delimiter);
    }
  }

  lemma {:induction false} JoinHides(parts: seq<string>, other: char, delimiter: char)
    requires |parts| > 0 && delimiter != '"' && delimiter != '\\' && other != delimiter
    requires forall i :: 0 <= i < |parts| ==> Hides(parts[i], other)
    ensures Hides(Join(parts, delimiter), other)
    decreases |parts|
  {
    hide Hides;
    if |parts| > 1 {
      JoinHides(parts[1..], other, delimiter);
      PlainHides([delimiter], other);
      HidesJoin(parts[0], [delimiter], other);
      HidesJoin(parts[0] + [delimiter], Join(parts[1..], delimiter), other);
    }
  }

  function Identity(group: string, name: string): string {
    if group == "" then name else group + "." + name
  }

  lemma TokenIsPlain(s: string, c: char)
    requires ValidToken(s) && !TokenChar(c)
    ensures c !in s && s != ""
  {
  }

  lemma IdentityParts(group: string, name: string)
    requires ValidToken(name) && (group == "" || ValidToken(group))
    ensures var identity := Identity(group, name);
            var dot := IndexOf(identity, '.');
            && identity != "" && Hides(identity, ';') && Hides(identity, ':')
            && (if group == "" then dot.None? else dot == Some(|group|) && identity[..|group|] == group && identity[|group| + 1..] == name)
            && '.' !in name
  {
    hide IndexOf, Hides, ValidToken;
    var identity := Identity(group, name);
    TokenIsPlain(name, '.');
    TokenIsPlain(name, ';');
    TokenIsPlain(name, ':');
    TokenIsPlain(name, '"');
    if group != "" {
      TokenIsPlain(group, '.');
      TokenIsPlain(group, ';');
      TokenIsPlain(group, ':');
      TokenIsPlain(group, '"');
      assert identity[..|group|] == group && identity[|group| + 1..] == name;
      IndexUnique(identity, '.', |group|);
    }
    assert '"' !in identity && ';' !in identity && ':' !in identity;
    PlainHides(identity, ';');
    PlainHides(identity, ':');
  }

  /** A written property, with any value and any well-formed parameters, reads back as itself. */
  lemma PropertyReadsBack(group: string, name: string, parameters: seq<string>, value: string, chunks: string)
    requires ValidToken(name) && (group == "" || ValidToken(group))
    requires forall i :: 0 <= i < |parameters| ==>
               ValidParameter(parameters[i]) && Hides(parameters[i], ';') && Hides(parameters[i], ':')
    ensures var head := Join([Identity(group, name)] + parameters, ';');
            ParseProperty(head + ":" + value, chunks) ==
            Some(Property(group, Upper(name), value, parameters != [], chunks))
  {
    hide FirstOutside, SplitFrom, Hides, ValidParameter, ValidToken, IndexOf, Upper, ParseProperty, ModeAt;
    var parts := [Identity(group, name)] + parameters;
    IdentityParts(group, name);
    JoinHides(parts, ':', ';');
    SplitOfJoined(parts, ';');
    var head := Join(parts, ';');
    FirstDelimiter(head, value, ':');
    assert head + ":" + value == head + [':'] + value;
    HeadStarts(parts);
    HidesBalanced(head, ':');
    HeadParses(head, value, group, name, parameters, chunks);
  }

  lemma HeadParses(head: string, value: string, group: string, name: string, parameters: seq<string>, chunks: string)
    requires ValidToken(name) && (group == "" || ValidToken(group))
    requires forall i :: 0 <= i < |parameters| ==> ValidParameter(parameters[i])
    requires head != "" && Balanced(head) && FirstOutside(head + ":" + value, ':', 0) == Some(|head|)
    requires SplitFrom(head, ';', 0, 0) == [Identity(group, name)] + parameters
    ensures ParseProperty(head + ":" + value, chunks) ==
            Some(Property(group, Upper(name), value, parameters != [], chunks))
  {
    hide FirstOutside, SplitFrom, Hides, ValidParameter, ValidToken, IndexOf, Upper, ModeAt, Balanced;
    IdentityParts(group, name);
    var text := head + ":" + value;
    assert text[..|head|] == head && text[|head| + 1..] == value;
    var parts := [Identity(group, name)] + parameters;
    assert forall i :: 1 <= i < |parts| ==> parts[i] == parameters[i - 1];
  }

  lemma HidesBalanced(s: string, c: char)
    requires Hides(s, c)
    ensures Balanced(s)
  {
  }

  lemma HeadStarts(parts: seq<string>)
    requires |parts| > 0 && parts[0] != ""
    ensures Join(parts, ';') != ""
  {
  }

  lemma UpperMeans(s: string)
    ensures |Upper(s)| == |s|
    ensures forall i :: 0 <= i < |s| ==>
              Upper(s)[i] == if 'a' <= s[i] <= 'z' then (s[i] as int - 'a' as int + 'A' as int) as char else s[i]
  {
  }

  /** A parameter with an unquoted or a quoted value is well formed. */
  lemma ParameterIsValid(name: string, value: string, quoted: bool)
    requires ValidToken(name) && '"' !in value
    requires if quoted then '\\' !in value else value != "" && ',' !in value
    ensures ValidParameter(name + "=" + if quoted then ['"'] + value + ['"'] else value)
  {
    hide FirstOutside, SplitFrom, Hides;
    var item := if quoted then ['"'] + value + ['"'] else value;
    TokenIsPlain(name, '=');
    TokenIsPlain(name, '"');
    PlainHides(name, '=');
    FirstDelimiter(name, item, '=');
    var parameter := name + "=" + item;
    assert parameter == name + ['='] + item;
    assert parameter[..|name|] == name && parameter[|name| + 1..] == item;
    if quoted {
      QuotedHides(value, ',');
    } else {
      PlainHides(value, ',');
    }
    HidesBalanced(item, ',');
    SplitLast(item, ',');
  }

  /** Values between commas are quoted as a whole or hold no quote, and none is empty. */
  ghost predicate ValuesOk(value: string) {
    Balanced(value) && forall item :: item in SplitFrom(value, ',', 0, 0) ==>
      && |item| > 0 && (item[0] != '"' ==> '"' !in item)
      && (item[0] == '"' ==> |item| >= 2 && item[|item| - 1] == '"')
  }

  ghost predicate NamesValues(parameter: string, name: string, value: string) {
    parameter == name + "=" + value && ValidToken(name) && ValuesOk(value)
  }

  /** A parameter is a token, an equals sign and its values. */
  lemma ParameterMeans(parameter: string)
    ensures ValidParameter(parameter) <==> exists name, value :: NamesValues(parameter, name, value)
  {
    hide SplitFrom, FirstOutside, Balanced, ValidToken;
    if ValidParameter(parameter) {
      var k := FirstOutside(parameter, '=', 0).value;
      var name, value := parameter[..k], parameter[k + 1..];
      assert parameter == name + "=" + value;
      assert NamesValues(parameter, name, value);
    }
    if name, value :| NamesValues(parameter, name, value) {
      TokenIsPlain(name, '=');
      TokenIsPlain(name, '"');
      PlainHides(name, '=');
      FirstDelimiter(name, value, '=');
      assert parameter == name + ['='] + value;
      assert parameter[..|name|] == name && parameter[|name| + 1..] == value;
      SplitNeverEmpty(value);
    }
  }

  lemma SplitNeverEmpty(value: string)
    ensures value == "" ==> SplitFrom(value, ',', 0, 0) == [""]
  {
  }
}
