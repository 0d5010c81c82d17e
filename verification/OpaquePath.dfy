/**
 Opaque CardDAV paths: iterated percent-decoding, canonical escapes, and containment of
 one URL in another, all on escaped text.
 */
module OpaquePath {
  import opened Text
  import opened Wrappers

  const MAX_PATH := 4096

  // --- Percent escapes ---------------------------------------------------------------------------

  predicate IsHex(c: char) {
    '0' <= c <= '9' || 'a' <= c <= 'f' || 'A' <= c <= 'F'
  }

  function UpperHex(c: char): (r: char)
    ensures IsHex(c) ==> IsHex(r)
    ensures !IsHex(c) ==> r == c
  {
    if 'a' <= c <= 'f' then (c as int - 32) as char else c
  }

  function HexValue(c: char): (v: int)
    requires IsHex(c)
    ensures 0 <= v < 16
    ensures HexValue(UpperHex(c)) == v
  {
    if '0' <= c <= '9' then c as int - '0' as int else UpperHex(c) as int - 'A' as int + 10
  }

  predicate EscapeAt(s: string, i: nat) {
    i + 2 < |s| && s[i] == '%' && IsHex(s[i + 1]) && IsHex(s[i + 2])
  }

  function DecodedByte(high: char, low: char): char
    requires IsHex(high) && IsHex(low)
  {
    (16 * HexValue(high) + HexValue(low)) as char
  }

  /** One decoding pass. */
  function Decode(s: string): (r: string)
    ensures |r| <= |s|
    decreases |s|
  {
    if s == "" then ""
    else if EscapeAt(s, 0) then [DecodedByte(s[1], s[2])] + Decode(s[3..])
    else [s[0]] + Decode(s[1..])
  }

  /** The length of the first unit of a text and the byte it stands for. */
  function Width(s: string): (n: nat)
    requires s != ""
    ensures 0 < n <= |s|
  {
    if EscapeAt(s, 0) then 3 else 1
  }

  function First(s: string): char
    requires s != ""
  {
    if EscapeAt(s, 0) then DecodedByte(s[1], s[2]) else s[0]
  }

  lemma DecodeUnit(s: string)
    requires s != ""
    ensures Decode(s) == [First(s)] + Decode(s[Width(s)..])
  {
  }

  ghost predicate HasEscape(s: string) {
    exists i: nat :: EscapeAt(s, i)
  }

  /** A pass with an escape shortens the text; a pass without one leaves it alone. */
  lemma {:induction false} DecodeShortens(s: string)
    ensures HasEscape(s) ==> |Decode(s)| < |s|
    ensures !HasEscape(s) ==> Decode(s) == s
    decreases |s|
  {
    if s != "" && !EscapeAt(s, 0) {
      DecodeShortens(s[1..]);
      assert forall i: nat :: EscapeAt(s[1..], i) ==> EscapeAt(s, i + 1);
      assert forall i: nat :: i > 0 && EscapeAt(s, i) ==> EscapeAt(s[1..], i - 1);
    }
  }

  lemma DecodeStep(value: string, index: nat)
    requires index < |value|
    ensures EscapeAt(value, index) ==>
              Decode(value[index..]) == [DecodedByte(value[index + 1], value[index + 2])] + Decode(value[index + 3..])
    ensures !EscapeAt(value, index) ==> Decode(value[index..]) == [value[index]] + Decode(value[index + 1..])
  {
    var rest := value[index..];
    assert EscapeAt(rest, 0) == EscapeAt(value, index);
    assert rest[1..] == value[index + 1..];
    assert EscapeAt(rest, 0) ==> rest[3..] == value[index + 3..];
  }

  method DecodePercentEscapes(value: string) returns (decoded: string, changed: bool)
    ensures decoded == Decode(value) && changed == HasEscape(value)
  {
    hide Decode;
    decoded, changed := "", false;
    var index := 0;
    assert value[0..] == value;
    while index < |value|
      invariant index <= |value|
      invariant decoded + Decode(value[index..]) == Decode(value)
      invariant changed ==> HasEscape(value)
      invariant !changed ==> forall i: nat :: i < index ==> !EscapeAt(value, i)
    {
      DecodeStep(value, index);
      if value[index] == '%' && index + 2 < |value| && IsHex(value[index + 1]) && IsHex(value[index + 2]) {
        var b := DecodedByte(value[index + 1], value[index + 2]);
        assert EscapeAt(value, index);
        Regroup(decoded, [b], Decode(value[index + 3..]));
        decoded, changed := decoded + [b], true;
        index := index + 2;
      } else {
        Regroup(decoded, [value[index]], Decode(value[index + 1..]));
        decoded := decoded + [value[index]];
      }
      index := index + 1;
    }
    assert value[index..] == "";
    assert Decode("") == "" && decoded + "" == decoded by { DecodeNothing(); }
  }

  lemma DecodeNothing()
    ensures Decode("") == ""
  {
  }

  // --- Escapes as they are written -----------------------------------------------------------------

  function HexDigit(v: int): (c: char)
    requires 0 <= v < 16
    ensures IsHex(c) && HexValue(c) == v && UpperHex(c) == c
  {
    if v < 10 then ('0' as int + v) as char else ('A' as int + v - 10) as char
  }

  /** Every byte written as an escape. */
  function Encode(bytes: string): string {
    if bytes == "" then ""
    else
      var c := bytes[0] as int;
      ['%', HexDigit((c / 16) % 16), HexDigit(c % 16)] + Encode(bytes[1..])
  }

  predicate IsBytes(s: string) {
    forall i :: 0 <= i < |s| ==> s[i] as int < 256
  }

  /** Decoding undoes encoding, for every byte string. */
  lemma {:induction false} DecodeOfEncode(bytes: string)
    requires IsBytes(bytes)
    ensures Decode(Encode(bytes)) == bytes
  {
    hide HexValue, UpperHex, IsHex, HexDigit, Decode;
    if bytes == "" {
      DecodeNothing();
    } else {
      var c := bytes[0] as int;
      var s, rest := Encode(bytes), Encode(bytes[1..]);
      Divided(c);
      assert s[3..] == rest && EscapeAt(s, 0);
      DecodeUnit(s);
      DecodeOfEncode(bytes[1..]);
    }
  }

  lemma Divided(c: nat)
    requires c < 256
    ensures c / 16 < 16 && c == 16 * (c / 16) + c % 16
  {
  }

  /** The hexadecimal digits, and what upper case makes of them. */
  lemma HexMeans(c: char)
    ensures IsHex(c) ==> UpperHex(c) == HexDigit(HexValue(c))
  {
  }

  // --- Iterated decoding -----------------------------------------------------------------------------

  function Iterate(s: string, k: nat): string {
    if k == 0 then s else Decode(Iterate(s, k - 1))
  }

  predicate Forbidden(c: char) {
    c == '/' || c == '\\' || c == '\0' || c == '\r' || c == '\n'
  }

  predicate Bad(s: string) {
    s == "." || s == ".." || exists i :: 0 <= i < |s| && Forbidden(s[i])
  }

  /** Some number of decodings of the segment is a dot segment or holds a forbidden byte. */
  ghost predicate Unsafe(segment: string) {
    exists k: nat :: Bad(Iterate(segment, k))
  }

  /** Once a pass changes nothing, no later pass does. */
  lemma {:induction false} FixedPoint(s: string, k: nat, n: nat)
    requires Decode(Iterate(s, k)) == Iterate(s, k) && k <= n
    ensures Iterate(s, n) == Iterate(s, k)
  {
    if k < n {
      FixedPoint(s, k, n - 1);
    }
  }

  lemma SafeAtFixedPoint(s: string, k: nat)
    requires !HasEscape(Iterate(s, k)) && forall j: nat :: j <= k ==> !Bad(Iterate(s, j))
    ensures !Unsafe(s)
  {
    hide Decode, Bad;
    DecodeShortens(Iterate(s, k));
    forall n: nat
      ensures !Bad(Iterate(s, n))
    {
      if n > k {
        FixedPoint(s, k, n);
      }
    }
  }

  /** The bounded loop decides the unbounded question: its last round is never used up. */
  method UnsafeSegment(segment: string) returns (unsafe: bool)
    ensures unsafe == Unsafe(segment)
  {
    hide Decode;
    var decoded, rounds := segment, 0;
    unsafe := true;
    while rounds < |segment| + 1
      invariant decoded == Iterate(segment, rounds) && unsafe
      invariant |decoded| + rounds <= |segment|
      invariant forall j: nat :: j < rounds ==> !Bad(Iterate(segment, j))
    {
      if Bad(decoded) {
        break;
      }
      var next, changed := DecodePercentEscapes(decoded);
      DecodeShortens(decoded);
      if !changed {
        SafeAtFixedPoint(segment, rounds);
        unsafe := false;
        break;
      }
      decoded, rounds := next, rounds + 1;
    }
  }

  /** A segment is safe exactly when no number of decodings makes it a dot segment or shows a separator or control byte. */
  lemma SafeMeans(segment: string)
    ensures Unsafe(segment) ==> exists k: nat :: !HarmlessText(Iterate(segment, k))
    ensures !Unsafe(segment) ==> forall k: nat :: HarmlessText(Iterate(segment, k))
  {
    if Unsafe(segment) {
      var k: nat :| Bad(Iterate(segment, k));
      BadMeans(Iterate(segment, k));
    } else {
      forall k: nat ensures HarmlessText(Iterate(segment, k)) {
        BadMeans(Iterate(segment, k));
      }
    }
  }

  predicate HarmlessText(s: string) {
    s != "." && s != ".." && '/' !in s && '\\' !in s && '\0' !in s && '\r' !in s && '\n' !in s
  }

  lemma BadMeans(s: string)
    ensures Bad(s) <==> !HarmlessText(s)
  {
  }

  // --- Segments -------------------------------------------------------------------------------------

  function Split(s: string): (r: seq<string>)
    ensures |r| > 0
    decreases |s|
  {
    var slash := IndexOf(s, '/');
    if slash.None? then [s] else [s[..slash.value]] + Split(s[slash.value + 1..])
  }

  lemma {:induction false} JoinOfSplit(s: string)
    ensures Join(Split(s), '/') == s
    ensures forall i :: 0 <= i < |Split(s)| ==> '/' !in Split(s)[i]
    decreases |s|
  {
    hide IndexOf;
    var slash := IndexOf(s, '/');
    if slash.Some? {
      var head, rest := s[..slash.value], s[slash.value + 1..];
      JoinOfSplit(rest);
      assert Split(s) == [head] + Split(rest);
      assert Split(s)[1..] == Split(rest);
      assert s == head + "/" + rest;
    }
  }

  /** A slash-free head is the first segment. */
  lemma SplitHead(head: string, rest: string)
    requires '/' !in head
    ensures Split(head + "/" + rest) == [head] + Split(rest)
  {
    hide IndexOf;
    var s := head + "/" + rest;
    assert s[..|head|] == head && s[|head| + 1..] == rest && s[|head|] == '/';
    IndexUnique(s, '/', |head|);
  }

  lemma SplitSingle(s: string)
    requires '/' !in s
    ensures Split(s) == [s]
  {
  }

  /** Splitting undoes joining slash-free segments. */
  lemma {:induction false} SplitOfJoin(segments: seq<string>)
    requires |segments| > 0 && forall i :: 0 <= i < |segments| ==> '/' !in segments[i]
    ensures Split(Join(segments, '/')) == segments
    decreases |segments|
  {
    hide Split;
    if |segments| == 1 {
      SplitSingle(segments[0]);
    } else {
      SplitOfJoin(segments[1..]);
      SplitHead(segments[0], Join(segments[1..], '/'));
    }
  }

  lemma {:induction false} JoinAppend(a: seq<string>, b: seq<string>)
    requires |a| > 0 && |b| > 0
    ensures Join(a + b, '/') == Join(a, '/') + "/" + Join(b, '/')
    decreases |a|
  {
    assert (a + b)[1..] == a[1..] + b;
    if |a| > 1 {
      JoinAppend(a[1..], b);
      assert a[0] + "/" + (Join(a[1..], '/') + "/" + Join(b, '/')) == a[0] + "/" + Join(a[1..], '/') + "/" + Join(b, '/');
    } else {
      assert (a + b)[1..] == b;
    }
  }

  /** Textual prefix up to a slash is exactly prefix by segments. */
  lemma PrefixBySegments(base: string, path: string)
    ensures base + "/" <= path <==> |Split(base)| < |Split(path)| && Split(base) <= Split(path)
  {
    hide Split, Join;
    var a, c := Split(base), Split(path);
    JoinOfSplit(base);
    JoinOfSplit(path);
    if base + "/" <= path {
      var rest := path[|base| + 1..];
      assert path == base + "/" + rest;
      JoinOfSplit(rest);
      JoinAppend(a, Split(rest));
      SplitOfJoin(a + Split(rest));
    }
    if |a| < |c| && a <= c {
      var b := c[|a|..];
      assert c == a + b;
      JoinAppend(a, b);
      assert path == base + "/" + Join(b, '/');
    }
  }

  // --- Canonical paths ----------------------------------------------------------------------------------

  /** Every percent sign starts an escape. */
  predicate WellEscaped(s: string) {
    forall i :: 0 <= i < |s| && s[i] == '%' ==> EscapeAt(s, i)
  }

  predicate Rejected(c: char) {
    c == '\\' || c == '\0' || c == '\r' || c == '\n'
  }

  predicate NoneRejected(s: string) {
    forall i :: 0 <= i < |s| ==> !Rejected(s[i])
  }

  /** The byte is one of the two hex digits of an escape. */
  predicate InEscape(s: string, i: nat)
    requires i < |s|
  {
    (i >= 1 && s[i - 1] == '%') || (i >= 2 && s[i - 2] == '%')
  }

  function CanonicalByte(s: string, i: nat): char
    requires i < |s|
  {
    if InEscape(s, i) then UpperHex(s[i]) else s[i]
  }

  /** Only the case of escape digits is normalised. */
  function Canonicalized(s: string): string {
    seq(|s|, i requires 0 <= i < |s| => CanonicalByte(s, i))
  }

  predicate Rooted(s: string) {
    0 < |s| <= MAX_PATH && s[0] == '/' && !(|s| >= 2 && s[1] == '/')
  }

  ghost predicate SafeSegments(s: string) {
    forall i :: 0 <= i < |Split(s)| ==> !Unsafe(Split(s)[i])
  }

  ghost predicate Acceptable(escaped: string) {
    Rooted(escaped) && WellEscaped(escaped) && NoneRejected(escaped) && SafeSegments(Canonicalized(escaped))
  }

  ghost function CanonicalPath(escaped: string): Option<string> {
    if Acceptable(escaped) then Some(Canonicalized(escaped)) else None
  }

  /** Neither byte before `i` is a percent sign, so `i` is not inside an escape. */
  predicate UnitStart(s: string, i: nat)
    requires i <= |s|
  {
    (i >= 1 ==> s[i - 1] != '%') && (i >= 2 ==> s[i - 2] != '%')
  }

  predicate Passes(s: string, i: nat)
    requires i < |s|
  {
    !Rejected(s[i]) && (s[i] == '%' ==> EscapeAt(s, i))
  }

  lemma EscapeUnit(s: string, i: nat)
    requires EscapeAt(s, i) && UnitStart(s, i)
    ensures UnitStart(s, i + 3) && Passes(s, i) && Passes(s, i + 1) && Passes(s, i + 2)
    ensures CanonicalByte(s, i) == s[i] && CanonicalByte(s, i + 1) == UpperHex(s[i + 1])
    ensures CanonicalByte(s, i + 2) == UpperHex(s[i + 2])
  {
    hide UpperHex;
  }

  lemma PlainUnit(s: string, i: nat)
    requires i < |s| && s[i] != '%' && UnitStart(s, i) && !Rejected(s[i])
    ensures UnitStart(s, i + 1) && Passes(s, i) && CanonicalByte(s, i) == s[i]
  {
  }

  lemma AllPass(s: string)
    ensures (WellEscaped(s) && NoneRejected(s)) <==> forall i :: 0 <= i < |s| ==> Passes(s, i)
  {
    hide EscapeAt, Rejected;
    if forall i :: 0 <= i < |s| ==> Passes(s, i) {
      forall i | 0 <= i < |s|
        ensures !Rejected(s[i]) && (s[i] == '%' ==> EscapeAt(s, i))
      {
        assert Passes(s, i);
      }
    }
  }

  /** The syntax a path must have, said outright. */
  lemma AcceptableMeans(escaped: string)
    ensures Acceptable(escaped) <==>
      && 1 <= |escaped| <= 4096 && escaped[0] == '/' && (|escaped| > 1 ==> escaped[1] != '/')
      && (forall i :: 0 <= i < |escaped| && escaped[i] == '%' ==>
            && i + 2 < |escaped|
            && forall j :: i < j <= i + 2 ==>
                 '0' <= escaped[j] <= '9' || 'a' <= escaped[j] <= 'f' || 'A' <= escaped[j] <= 'F')
      && '\\' !in escaped && '\0' !in escaped && '\r' !in escaped && '\n' !in escaped
      && SafeSegments(Canonicalized(escaped))
  {
    hide SafeSegments, Canonicalized;
  }

  /** Two texts agree but for the case of hexadecimal digits inside escapes. */
  ghost predicate SameButCase(s: string, t: string) {
    && |s| == |t|
    && forall i :: 0 <= i < |s| ==>
         s[i] == t[i] || (InEscape(s, i) && IsHex(s[i]) && IsHex(t[i]) && HexValue(s[i]) == HexValue(t[i]))
  }

  /** Canonical texts are equal exactly for paths that differ in nothing but the case of their escapes. */
  lemma CanonicalExact(s: string, t: string)
    requires WellEscaped(s) && WellEscaped(t)
    ensures Canonicalized(s) == Canonicalized(t) <==> SameButCase(s, t)
  {
    hide HexValue, UpperHex;
    if Canonicalized(s) == Canonicalized(t) {
      forall i | 0 <= i < |s|
        ensures s[i] == t[i] || (InEscape(s, i) && IsHex(s[i]) && IsHex(t[i]) && HexValue(s[i]) == HexValue(t[i]))
      {
        SameCanonicalByte(s, t, i);
      }
    }
    if SameButCase(s, t) {
      forall i | 0 <= i < |s| ensures CanonicalByte(s, i) == CanonicalByte(t, i) {
        SamePercents(s, t);
        HexMeans(s[i]);
        HexMeans(t[i]);
      }
    }
  }

  lemma SamePercents(s: string, t: string)
    requires SameButCase(s, t)
    ensures |s| == |t| && forall i :: 0 <= i < |s| ==> (s[i] == '%' <==> t[i] == '%')
    ensures forall i :: 0 <= i < |s| ==> InEscape(s, i) == InEscape(t, i)
  {
    hide HexValue;
  }

  lemma SameCanonicalByte(s: string, t: string, i: nat)
    requires WellEscaped(s) && WellEscaped(t) && Canonicalized(s) == Canonicalized(t) && i < |s|
    ensures |s| == |t|
    ensures s[i] == t[i] || (InEscape(s, i) && IsHex(s[i]) && IsHex(t[i]) && HexValue(s[i]) == HexValue(t[i]))
  {
    hide HexValue, UpperHex;
    var c := Canonicalized(s);
    assert |c| == |s| && |c| == |t| && c[i] == CanonicalByte(s, i) == CanonicalByte(t, i);
    assert forall j :: 0 <= j < |s| ==> CanonicalByte(s, j) == Canonicalized(s)[j] == Canonicalized(t)[j] == CanonicalByte(t, j);
    assert forall j :: 0 <= j < |s| ==> (s[j] == '%' <==> t[j] == '%') by {
      forall j | 0 <= j < |s| ensures s[j] == '%' <==> t[j] == '%' {
        PercentStays(s, j);
        PercentStays(t, j);
      }
    }
    if InEscape(s, i) {
      EscapeDigits(s, i);
      EscapeDigits(t, i);
      HexMeans(s[i]);
      HexMeans(t[i]);
    }
  }

  lemma PercentStays(s: string, j: nat)
    requires j < |s|
    ensures CanonicalByte(s, j) == '%' <==> s[j] == '%'
  {
  }

  lemma EscapeDigits(s: string, i: nat)
    requires WellEscaped(s) && i < |s| && InEscape(s, i)
    ensures IsHex(s[i])
  {
  }

  /** The in-place pass over the buffer. */
  method NormalizeEscapes(canonical: array<char>) returns (ok: bool)
    modifies canonical
    ensures ok == (WellEscaped(old(canonical[..])) && NoneRejected(old(canonical[..])))
    ensures ok ==> canonical[..] == Canonicalized(old(canonical[..]))
  {
    hide WellEscaped, NoneRejected, UnitStart, CanonicalByte, UpperHex, Rejected, IsHex;
    ghost var s := canonical[..];
    AllPass(s);
    var index := 0;
    assert UnitStart(s, 0) by { StartOfText(s); }
    while index < canonical.Length
      invariant index <= canonical.Length && UnitStart(s, index)
      invariant forall i :: index <= i < |s| ==> canonical[i] == s[i]
      invariant forall i :: 0 <= i < index ==> canonical[i] == CanonicalByte(s, i) && Passes(s, i)
    {
      if canonical[index] == '%' {
        if index + 2 >= canonical.Length || !IsHex(canonical[index + 1]) || !IsHex(canonical[index + 2]) {
          assert !Passes(s, index);
          return false;
        }
        EscapeUnit(s, index);
        canonical[index + 1] := UpperHex(canonical[index + 1]);
        canonical[index + 2] := UpperHex(canonical[index + 2]);
        index := index + 2;
      } else if Rejected(canonical[index]) {
        assert !Passes(s, index);
        return false;
      } else {
        PlainUnit(s, index);
      }
      index := index + 1;
    }
    ok := true;
  }

  lemma StartOfText(s: string)
    ensures UnitStart(s, 0)
  {
  }

  method AllSegmentsSafe(segments: seq<string>) returns (safe: bool)
    ensures safe <==> forall i :: 0 <= i < |segments| ==> !Unsafe(segments[i])
  {
    hide Unsafe;
    for i := 0 to |segments|
      invariant forall j :: 0 <= j < i ==> !Unsafe(segments[j])
    {
      var unsafe := UnsafeSegment(segments[i]);
      if unsafe {
        return false;
      }
    }
    safe := true;
  }

  method CanonicalOpaquePath(escaped: string) returns (path: Option<string>)
    ensures path == CanonicalPath(escaped)
  {
    hide WellEscaped, NoneRejected, Unsafe, Canonicalized, Split;
    if escaped == "" || |escaped| > MAX_PATH || escaped[0] != '/' || (|escaped| >= 2 && escaped[1] == '/') {
      return None;
    }
    var canonical := new char[|escaped|](i requires 0 <= i < |escaped| => escaped[i]);
    assert canonical[..] == escaped;
    var ok := NormalizeEscapes(canonical);
    if !ok {
      return None;
    }
    var safe := AllSegmentsSafe(Split(canonical[..]));
    path := if safe then Some(canonical[..]) else None;
  }

  lemma CanonicalizedPercent(s: string, i: nat)
    requires i < |s|
    ensures Canonicalized(s)[i] == '%' <==> s[i] == '%'
  {
  }

  lemma CanonicalizedEscapes(s: string, i: nat)
    requires WellEscaped(s) && i < |s|
    ensures EscapeAt(Canonicalized(s), i) == EscapeAt(s, i)
    ensures Rejected(Canonicalized(s)[i]) == Rejected(s[i])
    ensures InEscape(Canonicalized(s), i) == InEscape(s, i)
  {
  }

  /** Canonicalization is idempotent, in text and in acceptance. */
  lemma CanonicalIdempotent(s: string)
    requires Acceptable(s)
    ensures CanonicalPath(Canonicalized(s)) == Some(Canonicalized(s))
  {
    hide SafeSegments, EscapeAt, InEscape, Rejected;
    var c := Canonicalized(s);
    forall i | 0 <= i < |s|
      ensures c[i] == '%' ==> EscapeAt(c, i)
      ensures !Rejected(c[i]) && CanonicalByte(c, i) == c[i]
    {
      CanonicalizedPercent(s, i);
      CanonicalizedEscapes(s, i);
    }
    assert Canonicalized(c) == c;
    assert Rooted(c);
  }

  /** Canonical text decodes to the same bytes: only spelling changed. */
  lemma {:induction false} CanonicalDecodesSame(s: string)
    requires WellEscaped(s)
    ensures Decode(Canonicalized(s)) == Decode(s)
    decreases |s|
  {
    hide Decode, Canonicalized, WellEscaped, First, Width;
    if s == "" {
      CanonicalizedNothing();
    } else {
      CanonicalUnit(s);
      DecodeUnit(s);
      DecodeUnit(Canonicalized(s));
      CanonicalDecodesSame(s[Width(s)..]);
    }
  }

  lemma CanonicalizedNothing()
    ensures Canonicalized("") == ""
  {
  }

  lemma CanonicalUnit(s: string)
    requires WellEscaped(s) && s != ""
    ensures Canonicalized(s) != "" && First(Canonicalized(s)) == First(s) && Width(Canonicalized(s)) == Width(s)
    ensures WellEscaped(s[Width(s)..]) && Canonicalized(s)[Width(s)..] == Canonicalized(s[Width(s)..])
  {
    hide HexValue;
    CanonicalizedEscapes(s, 0);
    TailEscapes(s, Width(s));
  }

  lemma TailEscapes(s: string, n: nat)
    requires WellEscaped(s) && s != "" && n == Width(s)
    ensures WellEscaped(s[n..]) && Canonicalized(s)[n..] == Canonicalized(s[n..])
  {
    var t := s[n..];
    assert forall i :: 0 <= i < |t| ==> t[i] == s[i + n];
    assert forall i :: 0 <= i < |t| ==> InEscape(t, i) == InEscape(s, i + n);
  }

  // --- Decoding keeps the segments ----------------------------------------------------------------------

  /** No escape spans a slash. */
  lemma {:induction false} DecodeAcrossSlash(a: string, b: string)
    ensures Decode(a + "/" + b) == Decode(a) + "/" + Decode(b)
    decreases |a|
  {
    hide Decode, First, Width;
    var s := a + "/" + b;
    UnitBeforeSlash(a, b);
    DecodeUnit(s);
    if a == "" {
      DecodeNothing();
      assert s[1..] == b;
    } else {
      var rest := a[Width(a)..];
      DecodeUnit(a);
      DecodeAcrossSlash(rest, b);
      assert s[Width(a)..] == rest + "/" + b;
      Regroup([First(a)], Decode(rest), "/" + Decode(b));
      Regroup(Decode(rest), "/", Decode(b));
      Regroup(Decode(a), "/", Decode(b));
    }
  }

  lemma UnitBeforeSlash(a: string, b: string)
    ensures var s := a + "/" + b;
            if a == "" then First(s) == '/' && Width(s) == 1 else First(s) == First(a) && Width(s) == Width(a)
  {
    hide DecodedByte;
    var s := a + "/" + b;
    assert EscapeAt(s, 0) == EscapeAt(a, 0);
  }

  lemma {:induction false} IterateAcrossSlash(a: string, b: string, k: nat)
    ensures Iterate(a + "/" + b, k) == Iterate(a, k) + "/" + Iterate(b, k)
  {
    hide Decode;
    if k > 0 {
      IterateAcrossSlash(a, b, k - 1);
      DecodeAcrossSlash(Iterate(a, k - 1), Iterate(b, k - 1));
    }
  }

  function IterateEach(segments: seq<string>, k: nat): (r: seq<string>)
    ensures |r| == |segments| && forall i :: 0 <= i < |r| ==> r[i] == Iterate(segments[i], k)
  {
    seq(|segments|, i requires 0 <= i < |segments| => Iterate(segments[i], k))
  }

  lemma {:induction false} IterateJoined(segments: seq<string>, k: nat)
    requires |segments| > 0
    ensures Iterate(Join(segments, '/'), k) == Join(IterateEach(segments, k), '/')
    decreases |segments|
  {
    hide Iterate;
    if |segments| > 1 {
      IterateJoined(segments[1..], k);
      IterateAcrossSlash(segments[0], Join(segments[1..], '/'), k);
      assert IterateEach(segments, k)[1..] == IterateEach(segments[1..], k);
    }
  }

  /**
   However often an accepted path is decoded, its segments are the decoded segments: no
   separator appears, and none of them becomes a dot segment or holds a forbidden byte.
   */
  lemma DecodingKeepsSegments(path: string, k: nat)
    requires SafeSegments(path)
    ensures Split(Iterate(path, k)) == IterateEach(Split(path), k)
    ensures forall i :: 0 <= i < |Split(path)| ==> !Bad(Iterate(Split(path)[i], k))
  {
    hide Split, Iterate, Join, Bad, IterateEach;
    var segments := Split(path);
    JoinOfSplit(path);
    IterateJoined(segments, k);
    forall i | 0 <= i < |segments|
      ensures !Bad(Iterate(segments[i], k)) && '/' !in IterateEach(segments, k)[i]
    {
      assert !Unsafe(segments[i]);
      NotBadNoSlash(Iterate(segments[i], k));
    }
    SplitOfJoin(IterateEach(segments, k));
  }

  lemma NotBadNoSlash(s: string)
    requires !Bad(s)
    ensures '/' !in s
  {
  }

  // --- Containment -----------------------------------------------------------------------------------------

  datatype Url = Url(scheme: string, host: string, port: string, escapedPath: string)

  function EffectivePort(u: Url): string {
    if u.port == "" then "443" else u.port
  }

  predicate SameAuthority(a: Url, b: Url) {
    a.scheme == b.scheme && a.host == b.host && EffectivePort(a) == EffectivePort(b)
  }

  function TrimSlash(s: string): string {
    if s != "" && s[|s| - 1] == '/' then s[..|s| - 1] else s
  }

  /** Both paths are acceptable on one authority, and one is textually below the other. */
  ghost predicate Within(child: Url, collection: Url, allowEqual: bool) {
    && SameAuthority(child, collection)
    && Acceptable(child.escapedPath) && Acceptable(collection.escapedPath)
    && var base, path := BasePath(collection), BasePath(child);
       (allowEqual && path == base) || (base != "" && base + "/" <= path)
  }

  function BasePath(u: Url): string {
    TrimSlash(Canonicalized(u.escapedPath))
  }

  method UrlWithin(child: Url, collection: Url, allowEqual: bool) returns (r: bool)
    ensures r == Within(child, collection, allowEqual)
  {
    hide Acceptable, Canonicalized, TrimSlash;
    if child.scheme != collection.scheme || child.host != collection.host {
      return false;
    }
    var childPort := if child.port == "" then "443" else child.port;
    var collectionPort := if collection.port == "" then "443" else collection.port;
    if childPort != collectionPort {
      return false;
    }
    var base := CanonicalOpaquePath(collection.escapedPath);
    var path := CanonicalOpaquePath(child.escapedPath);
    if base.None? || path.None? {
      return false;
    }
    var basePath, childPath := TrimSlash(base.value), TrimSlash(path.value);
    if allowEqual && childPath == basePath {
      return true;
    }
    r := basePath != "" && basePath + "/" <= childPath;
  }

  /** Containment is a partial order on base paths whose strict part needs one strict step. */
  lemma WithinTransitive(a: Url, b: Url, c: Url, first: bool, second: bool)
    requires Within(a, b, first) && Within(b, c, second)
    ensures Within(a, c, first && second)
  {
    hide Acceptable, BasePath;
    var x, y, z := BasePath(a), BasePath(b), BasePath(c);
    if x != y && y != z {
      assert z + "/" <= y <= x;
    }
  }

  lemma StrictlyWithinIsStrict(a: Url, b: Url)
    requires Within(a, b, false)
    ensures !Within(b, a, true)
    ensures BasePath(b) != BasePath(a)
  {
    hide Acceptable, BasePath;
    assert |BasePath(b)| < |BasePath(a)|;
  }

  /** The base path's segments are the canonical path's, without the empty one after a final slash. */
  lemma BaseSegments(u: Url)
    ensures var path := Canonicalized(u.escapedPath);
            Split(BasePath(u)) ==
              if path != "" && path[|path| - 1] == '/' then Split(path)[..|Split(path)| - 1] else Split(path)
  {
    hide Split, Canonicalized;
    var path := Canonicalized(u.escapedPath);
    if path != "" && path[|path| - 1] == '/' {
      var base := path[..|path| - 1];
      assert path == base + "/" + "";
      JoinOfSplit(base);
      SplitSingle("");
      JoinAppend(Split(base), [""]);
      SplitOfJoin(Split(base) + [""]);
      assert Join([""], '/') == "";
    }
  }

  /** An absent port is port 443. */
  lemma DefaultPort(child: Url, collection: Url, allowEqual: bool)
    requires child.port == ""
    ensures Within(child, collection, allowEqual) == Within(child.(port := "443"), collection, allowEqual)
    ensures Within(collection, child, allowEqual) == Within(collection, child.(port := "443"), allowEqual)
  {
  }

  /** Strict containment is proper prefix by segments: a sibling sharing letters is never inside. */
  lemma WithinBySegments(child: Url, collection: Url)
    ensures Within(child, collection, false) <==>
            && SameAuthority(child, collection)
            && Acceptable(child.escapedPath) && Acceptable(collection.escapedPath)
            && BasePath(collection) != ""
            && |Split(BasePath(collection))| < |Split(BasePath(child))|
            && Split(BasePath(collection)) <= Split(BasePath(child))
  {
    hide Acceptable, BasePath, Split;
    PrefixBySegments(BasePath(collection), BasePath(child));
  }

  /** Dropping a trailing slash drops one empty segment. */
  lemma TrimmedSegments(path: string)
    ensures Split(TrimSlash(path)) <= Split(path)
  {
    hide Split;
    var base := TrimSlash(path);
    if base != path {
      assert path == base + "/";
      PrefixBySegments(base, path);
    }
  }

  lemma BasePathSafe(u: Url)
    requires Acceptable(u.escapedPath)
    ensures SafeSegments(BasePath(u))
  {
    hide Split, Unsafe, Rooted, WellEscaped, NoneRejected, Canonicalized, TrimSlash;
    TrimmedSegments(Canonicalized(u.escapedPath));
  }

  /** A server that decodes any number of times still sees the child strictly inside the collection. */
  lemma WithinSurvivesDecoding(child: Url, collection: Url, k: nat)
    requires Within(child, collection, false)
    ensures var base, path := Split(Iterate(BasePath(collection), k)), Split(Iterate(BasePath(child), k));
            |base| < |path| && base <= path
  {
    hide Acceptable, BasePath, Split, Iterate, SafeSegments;
    WithinBySegments(child, collection);
    BasePathSafe(child);
    BasePathSafe(collection);
    DecodingKeepsSegments(BasePath(child), k);
    DecodingKeepsSegments(BasePath(collection), k);
  }
}
