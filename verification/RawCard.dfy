/**
 The raw vCard: physical lines are unfolded into properties that keep their bytes.
 Parsing is specified by a grammar, and the parser is sound and complete for it.
 */
module RawCard {
  import opened Text
  import opened Wrappers
  import opened RawProperty

  const MAX_CARD_BYTES := 1048576
  const MAX_PROPERTIES := 10000

  // --- Physical lines ---------------------------------------------------------------------

  /** One physical line with its terminator. */
  predicate IsLine(chunk: string) {
    |chunk| > 0 && chunk[|chunk| - 1] == '\n' && '\n' !in chunk[..|chunk| - 1]
  }

  /** The line without LF or CRLF. */
  function Body(chunk: string): string
    requires IsLine(chunk)
  {
    var line := chunk[..|chunk| - 1];
    if |line| > 0 && line[|line| - 1] == '\r' then line[..|line| - 1] else line
  }

  predicate ValidByte(c: char) {
    c != '\U{7f}' && (c >= ' ' || c == '\t')
  }

  predicate ValidLine(chunk: string) {
    && IsLine(chunk) && Body(chunk) != "" && '\r' !in Body(chunk)
    && forall i :: 0 <= i < |Body(chunk)| ==> ValidByte(Body(chunk)[i])
  }

  predicate Continues(chunk: string)
    requires ValidLine(chunk)
  {
    Body(chunk)[0] == ' ' || Body(chunk)[0] == '\t'
  }

  // --- The grammar ----------------------------------------------------------------------------

  /** A first line and its continuation lines. */
  ghost predicate IsFolded(lines: seq<string>) {
    && |lines| > 0
    && (forall i :: 0 <= i < |lines| ==> ValidLine(lines[i]))
    && (forall i :: 0 <= i < |lines| ==> (Continues(lines[i]) <==> i > 0))
  }

  /** The logical line: continuation markers dropped. */
  ghost function Unfold(lines: seq<string>): string
    requires IsFolded(lines)
  {
    if |lines| == 1 then Body(lines[0])
    else Unfold(lines[..|lines| - 1]) + Body(lines[|lines| - 1])[1..]
  }

  ghost predicate FoldsTo(lines: seq<string>, p: Property) {
    IsFolded(lines) && p.raw == Joined(lines) && ParseProperty(Unfold(lines), p.raw) == Some(p)
  }

  /** The property's bytes, on their own, denote the property. */
  ghost predicate IsBlock(p: Property) {
    exists lines :: FoldsTo(lines, p)
  }

  function Bytes(ps: seq<Property>): string {
    if ps == [] then "" else ps[0].raw + Bytes(ps[1..])
  }

  /** Specification: `data` denotes the property list `ps`. */
  ghost predicate Denotes(data: string, ps: seq<Property>) {
    data == Bytes(ps) && forall i :: 0 <= i < |ps| ==> IsBlock(ps[i])
  }

  lemma {:induction false} BytesAppend(a: seq<Property>, b: seq<Property>)
    ensures Bytes(a + b) == Bytes(a) + Bytes(b)
  {
    if a == [] {
      assert a + b == b;
    } else {
      assert (a + b)[1..] == a[1..] + b;
      BytesAppend(a[1..], b);
    }
  }

  // --- The parser's loop as a function --------------------------------------------------------------

  datatype Error = Invalid | TooLarge

  datatype Result<T> = Ok(value: T) | Err(error: Error)

  /** Ends the pending property, if there is one. */
  function Flush(props: seq<Property>, chunks: string, logical: string, limit: nat): Result<seq<Property>> {
    if chunks == "" then Ok(props)
    else
      var p := ParseProperty(logical, chunks);
      if p.None? then Err(Invalid)
      else if |props| + 1 > limit then Err(TooLarge)
      else Ok(props + [p.value])
  }

  function Scan(data: string, props: seq<Property>, chunks: string, logical: string, limit: nat): Result<seq<Property>>
    decreases |data|
  {
    if data == "" then Flush(props, chunks, logical, limit)
    else
      var lf := IndexOf(data, '\n');
      if lf.None? then Err(Invalid)
      else
        var chunk, rest := data[..lf.value + 1], data[lf.value + 1..];
        if !ValidLine(chunk) then Err(Invalid)
        else if Continues(chunk) then
          if chunks == "" then Err(Invalid)
          else Scan(rest, props, chunks + chunk, logical + Body(chunk)[1..], limit)
        else
          var flushed := Flush(props, chunks, logical, limit);
          if flushed.Err? then flushed else Scan(rest, flushed.value, chunk, Body(chunk), limit)
  }

  /** Splitting off the first line. */
  lemma FirstLine(chunk: string, rest: string)
    requires IsLine(chunk)
    ensures IndexOf(chunk + rest, '\n') == Some(|chunk| - 1)
    ensures (chunk + rest)[..|chunk|] == chunk && (chunk + rest)[|chunk|..] == rest
  {
    var all := chunk + rest;
    assert all[..|chunk| - 1] == chunk[..|chunk| - 1];
    IndexUnique(all, '\n', |chunk| - 1);
  }

  // --- Completeness: every denoted list is found -----------------------------------------------------

  lemma LineHasBytes(lines: seq<string>)
    requires IsFolded(lines)
    ensures Joined(lines) != ""
  {
  }

  /** Reading a folded block from a clean start leaves it pending. */
  lemma {:induction false} ScanBlock(lines: seq<string>, rest: string, props: seq<Property>, limit: nat)
    requires IsFolded(lines)
    ensures Scan(Joined(lines) + rest, props, "", "", limit) == Scan(rest, props, Joined(lines), Unfold(lines), limit)
    decreases |lines|
  {
    hide ParseProperty, ValidLine, IndexOf;
    var n := |lines| - 1;
    var last := lines[n];
    ValidIsLine(last);
    FirstLine(last, rest);
    if n == 0 {
      assert lines[..0] == [] && Joined(lines) == last;
    } else {
      FoldedPrefix(lines);
      ScanBlock(lines[..n], last + rest, props, limit);
      assert Joined(lines) + rest == Joined(lines[..n]) + (last + rest);
      LineHasBytes(lines[..n]);
    }
  }

  lemma ValidIsLine(chunk: string)
    requires ValidLine(chunk)
    ensures IsLine(chunk) && Body(chunk) != ""
  {
  }

  lemma FoldedPrefix(lines: seq<string>)
    requires IsFolded(lines) && |lines| > 1
    ensures IsFolded(lines[..|lines| - 1])
  {
  }

  /** After a pending block, a new block's first line flushes it. */
  lemma {:induction false} ScanPending(pending: Property, logical: string, ps: seq<Property>, props: seq<Property>, limit: nat)
    requires pending.raw != "" && ParseProperty(logical, pending.raw) == Some(pending)
    requires forall i :: 0 <= i < |ps| ==> IsBlock(ps[i])
    requires |props| + 1 + |ps| <= limit
    ensures Scan(Bytes(ps), props, pending.raw, logical, limit) == Ok(props + [pending] + ps)
    decreases |ps|
  {
    hide ParseProperty, Scan, Bytes, IsBlock, IsFolded, Unfold, Joined;
    if ps == [] {
      ScanLast(pending, logical, props, limit);
      assert props + [pending] + ps == props + [pending];
    } else {
      var lines, rest := BlockAhead(ps);
      FlushThenScan(lines, rest, props, pending, logical, limit);
      ScanBlock(lines, rest, props + [pending], limit);
      LineHasBytes(lines);
      ScanPending(ps[0], Unfold(lines), ps[1..], props + [pending], limit);
      assert props + [pending] + [ps[0]] + ps[1..] == props + [pending] + ps;
    }
  }

  lemma ScanLast(pending: Property, logical: string, props: seq<Property>, limit: nat)
    requires pending.raw != "" && ParseProperty(logical, pending.raw) == Some(pending)
    requires |props| + 1 <= limit
    ensures Scan(Bytes([]), props, pending.raw, logical, limit) == Ok(props + [pending])
  {
    hide ParseProperty;
  }

  lemma BlockAhead(ps: seq<Property>) returns (lines: seq<string>, rest: string)
    requires ps != [] && forall i :: 0 <= i < |ps| ==> IsBlock(ps[i])
    ensures FoldsTo(lines, ps[0]) && rest == Bytes(ps[1..]) && Bytes(ps) == Joined(lines) + rest
    ensures forall i :: 0 <= i < |ps[1..]| ==> IsBlock(ps[1..][i])
  {
    hide ParseProperty, IsFolded, Joined, Unfold;
    assert IsBlock(ps[0]);
    lines :| FoldsTo(lines, ps[0]);
    rest := Bytes(ps[1..]);
  }

  lemma FlushThenScan(lines: seq<string>, rest: string, props: seq<Property>, pending: Property, logical: string, limit: nat)
    requires IsFolded(lines) && pending.raw != "" && ParseProperty(logical, pending.raw) == Some(pending)
    requires |props| + 1 <= limit
    ensures Scan(Joined(lines) + rest, props, pending.raw, logical, limit) ==
            Scan(Joined(lines) + rest, props + [pending], "", "", limit)
  {
    hide ParseProperty, ValidLine, IndexOf;
    var tail := FirstOfBlock(lines, rest);
    ValidIsLine(lines[0]);
    FirstLine(lines[0], tail);
    assert lines[0] != "";
  }

  lemma {:induction false} FirstOfBlock(lines: seq<string>, rest: string) returns (tail: string)
    requires |lines| > 0
    ensures Joined(lines) + rest == lines[0] + tail
    decreases |lines|
  {
    var n := |lines| - 1;
    if n == 0 {
      assert lines[..0] == [];
      tail := rest;
    } else {
      tail := FirstOfBlock(lines[..n], lines[n] + rest);
      assert Joined(lines) + rest == Joined(lines[..n]) + (lines[n] + rest);
    }
  }

  /** Complete and unambiguous: whatever the bytes denote is what the scan returns. */
  lemma ScanComplete(data: string, ps: seq<Property>, limit: nat)
    requires Denotes(data, ps) && |ps| <= limit
    ensures Scan(data, [], "", "", limit) == Ok(ps)
  {
    hide ParseProperty, Scan, Unfold, Joined, IsFolded;
    if ps == [] {
      ScanStep("", [], "", "", limit);
    } else {
      var lines, rest := BlockAhead(ps);
      ScanBlock(lines, rest, [], limit);
      LineHasBytes(lines);
      ScanPending(ps[0], Unfold(lines), ps[1..], [], limit);
      assert [] + [ps[0]] + ps[1..] == ps;
    }
  }

  /** A byte string denotes at most one property list. */
  lemma DenotesUnique(data: string, a: seq<Property>, b: seq<Property>)
    requires Denotes(data, a) && Denotes(data, b)
    ensures a == b
  {
    hide Denotes, Scan;
    ScanComplete(data, a, |a| + |b|);
    ScanComplete(data, b, |a| + |b|);
  }

  // --- Soundness: what is found is denoted -------------------------------------------------------------

  /** Everything scanned so far: finished properties and the pending block. */
  ghost predicate Consistent(props: seq<Property>, lines: seq<string>, chunks: string, logical: string, limit: nat) {
    && (forall i :: 0 <= i < |props| ==> IsBlock(props[i]))
    && |props| <= limit
    && chunks == Joined(lines)
    && (if lines == [] then logical == "" else IsFolded(lines) && logical == Unfold(lines))
  }

  lemma FlushSound(props: seq<Property>, lines: seq<string>, chunks: string, logical: string, limit: nat)
    requires Consistent(props, lines, chunks, logical, limit) && Flush(props, chunks, logical, limit).Ok?
    ensures var qs := Flush(props, chunks, logical, limit).value;
            Denotes(Bytes(props) + chunks, qs) && |qs| <= limit
  {
    hide ParseProperty, IsFolded, Unfold, ValidLine;
    if lines != [] {
      LineHasBytes(lines);
      var p := ParseProperty(logical, chunks).value;
      assert FoldsTo(lines, p);
      BytesAppend(props, [p]);
      assert Bytes([p]) == p.raw + Bytes([]);
    } else {
      assert Bytes(props) + "" == Bytes(props);
    }
  }

  lemma ExtendBlock(lines: seq<string>, chunk: string)
    requires IsFolded(lines) && ValidLine(chunk) && Continues(chunk)
    ensures IsFolded(lines + [chunk]) && Joined(lines + [chunk]) == Joined(lines) + chunk
    ensures Unfold(lines + [chunk]) == Unfold(lines) + Body(chunk)[1..]
  {
    hide ValidLine, Body;
    assert (lines + [chunk])[..|lines|] == lines;
  }

  lemma StartBlock(chunk: string)
    requires ValidLine(chunk) && !Continues(chunk)
    ensures IsFolded([chunk]) && Joined([chunk]) == chunk && Unfold([chunk]) == Body(chunk)
  {
    hide ValidLine, Body;
    assert [chunk][..0] == [];
  }

  lemma CutLine(data: string)
    requires IndexOf(data, '\n').Some?
    ensures var k := IndexOf(data, '\n').value + 1; k <= |data| && data == data[..k] + data[k..]
  {
    hide IndexOf;
  }

  lemma EmptyConcat()
    ensures Joined([]) == ""
  {
  }

  lemma RegroupFour(a: string, b: string, c: string, d: string)
    ensures a + (b + c) + d == a + b + (c + d) && (a + b) + c + d == a + b + (c + d)
  {
  }

  /** The scan keeps every byte it reads. */
  lemma {:induction false} ScanSound(data: string, props: seq<Property>, lines: seq<string>, chunks: string, logical: string, limit: nat)
    requires Consistent(props, lines, chunks, logical, limit) && Scan(data, props, chunks, logical, limit).Ok?
    ensures var qs := Scan(data, props, chunks, logical, limit).value;
            Denotes(Bytes(props) + chunks + data, qs) && |qs| <= limit
    decreases |data|
  {
    hide ParseProperty, ValidLine, IndexOf, Denotes, IsFolded, Unfold, Bytes, Joined, Flush, Body, IsBlock;
    if data == "" {
      FlushSound(props, lines, chunks, logical, limit);
      assert Bytes(props) + chunks + data == Bytes(props) + chunks;
    } else {
      var k := IndexOf(data, '\n').value + 1;
      CutLine(data);
      var chunk, rest := data[..k], data[k..];
      ValidIsLine(chunk);
      if Continues(chunk) {
        EmptyConcat();
        ExtendBlock(lines, chunk);
        ScanSound(rest, props, lines + [chunk], chunks + chunk, logical + Body(chunk)[1..], limit);
        RegroupFour(Bytes(props), chunks, chunk, rest);
      } else {
        var props' := Flush(props, chunks, logical, limit).value;
        FlushSound(props, lines, chunks, logical, limit);
        DenotesParts(Bytes(props) + chunks, props');
        StartBlock(chunk);
        ScanSound(rest, props', [chunk], chunk, Body(chunk), limit);
        RegroupFour(Bytes(props), chunks, chunk, rest);
      }
    }
  }

  lemma DenotesParts(data: string, ps: seq<Property>)
    requires Denotes(data, ps)
    ensures data == Bytes(ps) && forall i :: 0 <= i < |ps| ==> IsBlock(ps[i])
  {
  }

  /** The scan succeeds on exactly the byte strings that denote a list within the limit, and returns it. */
  lemma ScanExact(data: string, ps: seq<Property>, limit: nat)
    ensures Scan(data, [], "", "", limit) == Ok(ps) <==> Denotes(data, ps) && |ps| <= limit
  {
    hide Scan, Denotes;
    if Scan(data, [], "", "", limit) == Ok(ps) {
      ScanSound(data, [], [], "", "", limit);
      assert Bytes([]) + "" + data == data;
    } else if Denotes(data, ps) && |ps| <= limit {
      ScanComplete(data, ps, limit);
    }
  }

  // --- Folding a logical line -----------------------------------------------------------------------

  /** Bytes a line may hold: tabs, and everything from the space on but DEL. */
  predicate LineBytes(s: string) {
    forall i :: 0 <= i < |s| ==> s[i] == '\t' || (s[i] >= ' ' && s[i] != '\U{7f}')
  }

  /** The physical lines of a folded text: every piece but the first after a space. */
  function Fold(pieces: seq<string>): seq<string> {
    seq(|pieces|, i requires 0 <= i < |pieces| => (if i == 0 then "" else " ") + pieces[i] + "\r\n")
  }

  lemma FoldedLine(piece: string, first: bool)
    requires LineBytes(piece) && (first ==> piece != "" && piece[0] != ' ' && piece[0] != '\t')
    ensures var chunk := (if first then "" else " ") + piece + "\r\n";
            && ValidLine(chunk) && Body(chunk) == (if first then "" else " ") + piece && Continues(chunk) == !first
  {
    var text := (if first then "" else " ") + piece;
    var chunk := text + "\r\n";
    assert chunk[..|chunk| - 1] == text + "\r";
    assert (text + "\r")[..|text|] == text;
  }

  /** Unfolding undoes folding, wherever the line was broken. */
  lemma {:induction false} UnfoldOfFold(pieces: seq<string>)
    requires |pieces| > 0 && forall i :: 0 <= i < |pieces| ==> LineBytes(pieces[i])
    requires pieces[0] != "" && pieces[0][0] != ' ' && pieces[0][0] != '\t'
    ensures IsFolded(Fold(pieces)) && Unfold(Fold(pieces)) == Joined(pieces)
  {
    hide ValidLine, Body, LineBytes;
    var lines, n := Fold(pieces), |pieces| - 1;
    forall i | 0 <= i < |lines|
      ensures IsLine(lines[i]) && ValidLine(lines[i]) && Continues(lines[i]) == (i > 0)
      ensures Body(lines[i]) == (if i == 0 then "" else " ") + pieces[i]
    {
      FoldedLine(pieces[i], i == 0);
      ValidIsLine(lines[i]);
    }
    if n == 0 {
      assert pieces[..0] == [] && Joined(pieces) == "" + pieces[0];
    } else {
      UnfoldOfFold(pieces[..n]);
      assert lines[..n] == Fold(pieces[..n]);
      assert Body(lines[n])[1..] == pieces[n];
    }
  }

  /** A folded property line is read as the property of the unbroken line. */
  lemma FoldedPropertyDenotes(pieces: seq<string>, p: Property)
    requires |pieces| > 0 && forall i :: 0 <= i < |pieces| ==> LineBytes(pieces[i])
    requires pieces[0] != "" && pieces[0][0] != ' ' && pieces[0][0] != '\t'
    requires ParseProperty(Joined(pieces), Joined(Fold(pieces))) == Some(p)
    ensures Denotes(Joined(Fold(pieces)), [p])
  {
    hide ParseProperty, Unfold, IsFolded, Joined, Fold;
    UnfoldOfFold(pieces);
    assert FoldsTo(Fold(pieces), p);
    assert Bytes([p]) == p.raw + Bytes([]);
  }

  lemma {:induction false} FoldedBytes(lines: seq<string>)
    requires forall i :: 0 <= i < |lines| ==> ValidLine(lines[i])
    ensures CardBytes(Joined(lines))
  {
    if lines != [] {
      FoldedBytes(lines[..|lines| - 1]);
      LineOfBytes(lines[|lines| - 1]);
    }
  }

  /** Line ends apart, only line bytes. */
  predicate CardBytes(s: string) {
    forall i :: 0 <= i < |s| ==> s[i] == '\n' || s[i] == '\r' || s[i] == '\t' || (s[i] >= ' ' && s[i] != '\U{7f}')
  }

  lemma LineOfBytes(chunk: string)
    requires ValidLine(chunk)
    ensures CardBytes(chunk)
  {
    var line := chunk[..|chunk| - 1];
    assert forall i :: 0 <= i < |Body(chunk)| ==> chunk[i] == Body(chunk)[i];
  }

  /** No other control byte occurs in a card. */
  lemma {:induction false} DenotedBytes(data: string, ps: seq<Property>)
    requires Denotes(data, ps)
    ensures CardBytes(data)
    decreases |ps|
  {
    hide ParseProperty, ValidLine, Unfold;
    if ps != [] {
      assert IsBlock(ps[0]);
      var lines :| FoldsTo(lines, ps[0]);
      FoldedBytes(lines);
      assert forall i :: 0 <= i < |ps[1..]| ==> ps[1..][i] == ps[i + 1];
      DenotedBytes(Bytes(ps[1..]), ps[1..]);
    }
  }

  // --- Card rules --------------------------------------------------------------------------------------

  function Named(ps: seq<Property>, name: string): (found: seq<Property>)
    ensures forall p :: p in found <==> p in ps && p.name == name
  {
    if ps == [] then []
    else Named(ps[..|ps| - 1], name) + if ps[|ps| - 1].name == name then [ps[|ps| - 1]] else []
  }

  /** Separators not preceded by an escaping backslash. */
  function CountUnescaped(value: string, wanted: char, escaped: bool): nat {
    if value == "" then 0
    else if escaped then CountUnescaped(value[1..], wanted, false)
    else if value[0] == '\\' then CountUnescaped(value[1..], wanted, true)
    else CountUnescaped(value[1..], wanted, false) + if value[0] == wanted then 1 else 0
  }

  predicate Delimits(p: Property, name: string) {
    p.group == "" && !p.hasParams && p.name == name && Upper(p.value) == "VCARD"
  }

  /** The rules on a parsed card; `blank` tells which values trim to nothing. */
  predicate ValidCard(ps: seq<Property>, blank: string -> bool) {
    && |ps| >= 5
    && Delimits(ps[0], "BEGIN") && Delimits(ps[|ps| - 1], "END")
    && (forall i :: 0 < i < |ps| - 1 ==> ps[i].name != "BEGIN" && ps[i].name != "END")
    && ps[1].name == "VERSION"
    && |Named(ps, "VERSION")| == 1 && |Named(ps, "UID")| == 1
    && ValidParts(Named(ps, "VERSION")[0], Named(ps, "UID")[0], Named(ps, "FN"), Named(ps, "N"), blank)
  }

  predicate ValidParts(version: Property, uid: Property, display: seq<Property>, names: seq<Property>, blank: string -> bool) {
    && !version.hasParams && (version.value == "3.0" || version.value == "4.0")
    && |display| > 0
    && (if version.value == "4.0" then |names| <= 1 else |display| == 1 && |names| == 1)
    && version.group == "" && uid.group == ""
    && (forall p :: p in display ==> p.group == "") && (forall p :: p in names ==> p.group == "")
    && !blank(uid.value) && (exists p :: p in display && !blank(p.value))
    && (forall p :: p in names ==> CountUnescaped(p.value, ';', false) == 4)
  }

  method CountSeparators(value: string, wanted: char) returns (count: nat)
    ensures count == CountUnescaped(value, wanted, false)
  {
    count := 0;
    var escaped := false;
    assert value[0..] == value;
    for index := 0 to |value|
      invariant CountUnescaped(value, wanted, false) == count + CountUnescaped(value[index..], wanted, escaped)
    {
      assert value[index..][1..] == value[index + 1..];
      if escaped {
        escaped := false;
      } else if value[index] == '\\' {
        escaped := true;
      } else if value[index] == wanted {
        count := count + 1;
      }
    }
  }

  method AddIfNamed(found: seq<Property>, ps: seq<Property>, i: nat, name: string) returns (more: seq<Property>)
    requires i < |ps| && found == Named(ps[..i], name)
    ensures more == Named(ps[..i + 1], name)
  {
    assert ps[..i + 1][..i] == ps[..i];
    more := if ps[i].name == name then found + [ps[i]] else found;
  }

  predicate IsDelimiter(p: Property) {
    p.name == "BEGIN" || p.name == "END"
  }

  /** The properties the card rules look at, gathered in one pass; misplaced delimiters stop it. */
  method GatherNamed(ps: seq<Property>)
    returns (ok: bool, versions: seq<Property>, uids: seq<Property>, display: seq<Property>, names: seq<Property>)
    ensures ok <==> forall i :: 0 < i < |ps| - 1 ==> !IsDelimiter(ps[i])
    ensures ok ==> versions == Named(ps, "VERSION") && uids == Named(ps, "UID")
    ensures ok ==> display == Named(ps, "FN") && names == Named(ps, "N")
  {
    assert forall name :: Named([], name) == [];
    hide Named, IsDelimiter;
    versions, uids, display, names := [], [], [], [];
    for i := 0 to |ps|
      invariant forall k :: 0 < k < |ps| - 1 && k < i ==> !IsDelimiter(ps[k])
      invariant versions == Named(ps[..i], "VERSION") && uids == Named(ps[..i], "UID")
      invariant display == Named(ps[..i], "FN") && names == Named(ps[..i], "N")
    {
      if 0 < i < |ps| - 1 && IsDelimiter(ps[i]) {
        return false, versions, uids, display, names;
      }
      versions := AddIfNamed(versions, ps, i, "VERSION");
      uids := AddIfNamed(uids, ps, i, "UID");
      display := AddIfNamed(display, ps, i, "FN");
      names := AddIfNamed(names, ps, i, "N");
    }
    assert ps[..|ps|] == ps;
    ok := true;
  }

  method ValidateParts(version: Property, uid: Property, display: seq<Property>, names: seq<Property>, blank: string -> bool)
    returns (ok: bool)
    ensures ok == ValidParts(version, uid, display, names, blank)
  {
    hide CountUnescaped;
    if version.hasParams || (version.value != "3.0" && version.value != "4.0") {
      return false;
    }
    var v4 := version.value == "4.0";
    if |display| == 0 || (!v4 && (|display| != 1 || |names| != 1)) || (v4 && |names| > 1) {
      return false;
    }
    if version.group != "" || uid.group != "" {
      return false;
    }
    if (exists p :: p in display && p.group != "") || (exists p :: p in names && p.group != "") {
      return false;
    }
    if blank(uid.value) || !(exists p :: p in display && !blank(p.value)) {
      return false;
    }
    for i := 0 to |names|
      invariant forall k :: 0 <= k < i ==> CountUnescaped(names[k].value, ';', false) == 4
    {
      var count := CountSeparators(names[i].value, ';');
      if count != 4 {
        assert names[i] in names;
        return false;
      }
    }
    ok := true;
  }

  method ValidateRawCard(ps: seq<Property>, blank: string -> bool) returns (ok: bool)
    ensures ok == ValidCard(ps, blank)
  {
    hide Named, Delimits, ValidParts;
    if |ps| < 5 || !Delimits(ps[0], "BEGIN") || !Delimits(ps[|ps| - 1], "END") {
      return false;
    }
    var versions, uids, display, names;
    ok, versions, uids, display, names := GatherNamed(ps);
    if !ok || ps[1].name != "VERSION" || |versions| != 1 || |uids| != 1 {
      return false;
    }
    ok := ValidateParts(versions[0], uids[0], display, names, blank);
  }

  /** Sound, complete and lossless: the card is accepted exactly when its bytes denote a valid property list. */
  method ParseRawCard(data: string, blank: string -> bool) returns (r: Result<seq<Property>>)
    ensures r.Ok? ==> Denotes(data, r.value) && Bytes(r.value) == data && ValidCard(r.value, blank)
    ensures r.Err? ==> forall ps :: Denotes(data, ps) ==> !ValidCard(ps, blank) || |ps| > MAX_PROPERTIES + 2
    ensures r.Ok? ==> |r.value| <= MAX_PROPERTIES + 2
  {
    hide Denotes, Scan, Flush, ValidCard, ValidLine, Bytes, ParseProperty, IndexOf;
    forall ps ensures Scan(data, [], "", "", MAX_PROPERTIES + 2) == Ok(ps) <==> Denotes(data, ps) && |ps| <= MAX_PROPERTIES + 2 {
      ScanExact(data, ps, MAX_PROPERTIES + 2);
    }
    if |data| == 0 {
      EmptyCard(blank);
      return Err(Invalid);
    }
    var props: seq<Property> := [];
    var chunks, logical := "", "";
    var offset := 0;
    while offset < |data|
      invariant 0 <= offset <= |data|
      invariant Scan(data, [], "", "", MAX_PROPERTIES + 2) == Scan(data[offset..], props, chunks, logical, MAX_PROPERTIES + 2)
    {
      ScanStep(data[offset..], props, chunks, logical, MAX_PROPERTIES + 2);
      var lf := IndexOf(data[offset..], '\n');
      if lf.None? {
        return Err(Invalid);
      }
      var next := offset + lf.value + 1;
      var chunk := data[offset..next];
      assert data[offset..][..lf.value + 1] == chunk && data[offset..][lf.value + 1..] == data[next..];
      if !ValidLine(chunk) {
        return Err(Invalid);
      }
      ValidIsLine(chunk);
      if Continues(chunk) {
        if |chunks| == 0 {
          return Err(Invalid);
        }
        chunks, logical := chunks + chunk, logical + Body(chunk)[1..];
      } else {
        var flushed := FlushPending(props, chunks, logical);
        if flushed.Err? {
          return Err(flushed.error);
        }
        props, chunks, logical := flushed.value, chunk, Body(chunk);
      }
      offset := next;
    }
    assert data[offset..] == "";
    ScanStep("", props, chunks, logical, MAX_PROPERTIES + 2);
    var flushed := FlushPending(props, chunks, logical);
    if flushed.Err? {
      return Err(flushed.error);
    }
    var valid := ValidateRawCard(flushed.value, blank);
    if !valid {
      return Err(Invalid);
    }
    DenotesParts(data, flushed.value);
    r := Ok(flushed.value);
  }

  method FlushPending(props: seq<Property>, chunks: string, logical: string) returns (r: Result<seq<Property>>)
    ensures r == Flush(props, chunks, logical, MAX_PROPERTIES + 2)
  {
    hide ParseProperty;
    if |chunks| == 0 {
      return Ok(props);
    }
    var p := ParseRawProperty(logical, chunks);
    if p.None? {
      return Err(Invalid);
    }
    var longer := props + [p.value];
    if |longer| > MAX_PROPERTIES + 2 {
      return Err(TooLarge);
    }
    r := Ok(longer);
  }

  lemma ScanStep(data: string, props: seq<Property>, chunks: string, logical: string, limit: nat)
    ensures data == "" ==> Scan(data, props, chunks, logical, limit) == Flush(props, chunks, logical, limit)
    ensures data != "" ==>
      var lf := IndexOf(data, '\n');
      if lf.None? || !ValidLine(data[..lf.value + 1]) then Scan(data, props, chunks, logical, limit) == Err(Invalid)
      else
        var chunk, rest := data[..lf.value + 1], data[lf.value + 1..];
        if Continues(chunk) then
          Scan(data, props, chunks, logical, limit) ==
            if chunks == "" then Err(Invalid) else Scan(rest, props, chunks + chunk, logical + Body(chunk)[1..], limit)
        else
          var flushed := Flush(props, chunks, logical, limit);
          Scan(data, props, chunks, logical, limit) == if flushed.Err? then flushed else Scan(rest, flushed.value, chunk, Body(chunk), limit)
  {
    hide IndexOf, ValidLine, Flush;
  }

  lemma EmptyCard(blank: string -> bool)
    ensures !ValidCard([], blank) && Scan("", [], "", "", MAX_PROPERTIES + 2) == Ok([])
  {
  }
}
