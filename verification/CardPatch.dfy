/** Patching a raw card: replacement blocks are spliced in, everything else keeps its bytes. */
module CardPatch {
  import opened Wrappers
  import opened RawProperty
  import opened RawCard
  import opened Sequences

  /** Property names a contact patch can touch; BEGIN, END, VERSION and UID are not among them. */
  const PATCHABLE := ["FN", "N", "ORG", "TITLE", "NICKNAME", "BDAY", "NOTE", "EMAIL", "TEL", "ADR", "URL"]

  /** The patched names in their fixed order, one flag per patchable field. */
  function PatchedNames(present: seq<bool>): (names: seq<string>)
    requires |present| <= |PATCHABLE|
    ensures forall i :: 0 <= i < |names| ==> names[i] in PATCHABLE[..|present|]
  {
    if present == [] then []
    else
      var n := |present| - 1;
      assert PATCHABLE[..n + 1] == PATCHABLE[..n] + [PATCHABLE[n]];
      PatchedNames(present[..n]) + if present[n] then [PATCHABLE[n]] else []
  }

  lemma {:induction false} PatchedNamesDistinct(present: seq<bool>)
    requires |present| <= |PATCHABLE|
    ensures Distinct(PatchedNames(present))
  {
    if present != [] {
      var n := |present| - 1;
      PatchedNamesDistinct(present[..n]);
      PatchableDistinct();
      var rest := PatchedNames(present[..n]);
      forall i | 0 <= i < |rest| ensures rest[i] != PATCHABLE[n] {
        assert rest[i] in PATCHABLE[..n];
      }
    }
  }

  /** The patch carries a field for this name. */
  predicate Flagged(present: seq<bool>, name: string)
    requires |present| <= |PATCHABLE|
  {
    exists i :: 0 <= i < |present| && present[i] && PATCHABLE[i] == name
  }

  /** The patched names are the flagged ones. */
  lemma {:induction false} PatchedNamesExact(present: seq<bool>, name: string)
    requires |present| <= |PATCHABLE|
    ensures name in PatchedNames(present) <==> Flagged(present, name)
  {
    if present != [] {
      var n := |present| - 1;
      PatchedNamesExact(present[..n], name);
      assert Flagged(present, name) <==> Flagged(present[..n], name) || (present[n] && PATCHABLE[n] == name) by {
        assert forall i :: 0 <= i < n ==> present[i] == present[..n][i];
      }
    }
  }

  /** Each flag decides its own name. */
  lemma FlagDecides(present: seq<bool>, i: nat)
    requires i < |present| <= |PATCHABLE|
    ensures PATCHABLE[i] in PatchedNames(present) <==> present[i]
  {
    hide PatchedNames;
    PatchedNamesExact(present, PATCHABLE[i]);
    PatchableDistinct();
    OneFlagEach(PATCHABLE, present, i);
  }

  lemma OneFlagEach(names: seq<string>, present: seq<bool>, i: nat)
    requires Distinct(names) && i < |present| <= |names|
    ensures (exists j :: 0 <= j < |present| && present[j] && names[j] == names[i]) <==> present[i]
  {
  }

  lemma PatchableDistinct()
    ensures Distinct(PATCHABLE)
    ensures "BEGIN" !in PATCHABLE && "END" !in PATCHABLE && "VERSION" !in PATCHABLE && "UID" !in PATCHABLE
  {
    assert PATCHABLE[0] == "FN" && PATCHABLE[1] == "N";
    assert |"FN"| == 2 && |"N"| == 1 && |"ORG"| == 3 && |"TITLE"| == 5 && |"NICKNAME"| == 8 && |"BDAY"| == 4;
    assert "NOTE"[0] == 'N' && "BDAY"[0] == 'B' && "EMAIL"[0] == 'E' && "TITLE"[0] == 'T';
    assert "ORG"[0] == 'O' && "TEL"[0] == 'T' && "ADR"[0] == 'A' && "URL"[0] == 'U' && "END"[0] == 'E';
    assert |"UID"| == 3 && "UID"[1] == 'I' && "URL"[1] == 'R' && |"BEGIN"| == 5 && "BEGIN"[0] == 'B' && |"VERSION"| == 7;
  }

  // --- The splice ----------------------------------------------------------------------------

  /** Replacement blocks of the names not yet emitted, in name order. */
  function Pending(names: seq<string>, emitted: set<string>, canonical: seq<Property>): seq<Property> {
    if names == [] then []
    else
      var n := |names| - 1;
      Pending(names[..n], emitted, canonical) + if names[n] in emitted then [] else Named(canonical, names[n])
  }

  /** Leftovers go just before the last property. */
  function Lead(ps: seq<Property>, i: nat, names: seq<string>, emitted: set<string>, canonical: seq<Property>): seq<Property> {
    if i + 1 == |ps| then Pending(names, emitted, canonical) else []
  }

  /** Names emitted once the leftovers of step `i` are out. */
  function AfterLead(ps: seq<Property>, i: nat, names: seq<string>, emitted: set<string>): set<string> {
    if i + 1 == |ps| then emitted + (set n | n in names) else emitted
  }

  /** The property itself, its replacement block, or nothing. */
  function Here(ps: seq<Property>, i: nat, names: seq<string>, emitted: set<string>, canonical: seq<Property>): seq<Property>
    requires i < |ps|
  {
    if ps[i].name !in names then [ps[i]]
    else if ps[i].name in AfterLead(ps, i, names, emitted) then []
    else Named(canonical, ps[i].name)
  }

  function AfterHere(ps: seq<Property>, i: nat, names: seq<string>, emitted: set<string>): set<string>
    requires i < |ps|
  {
    AfterLead(ps, i, names, emitted) + if ps[i].name in names then {ps[i].name} else {}
  }

  /** The patched list from index `i` on. */
  function SpliceFrom(ps: seq<Property>, i: nat, names: seq<string>, emitted: set<string>, canonical: seq<Property>): seq<Property>
    requires i <= |ps|
    decreases |ps| - i
  {
    if i == |ps| then []
    else
      Lead(ps, i, names, emitted, canonical) + Here(ps, i, names, emitted, canonical)
      + SpliceFrom(ps, i + 1, names, AfterHere(ps, i, names, emitted), canonical)
  }

  function Splice(ps: seq<Property>, names: seq<string>, canonical: seq<Property>): seq<Property> {
    SpliceFrom(ps, 0, names, {}, canonical)
  }

  /** The properties a patch does not touch. */
  function Untouched(ps: seq<Property>, names: seq<string>): seq<Property> {
    if ps == [] then []
    else (if ps[0].name in names then [] else [ps[0]]) + Untouched(ps[1..], names)
  }

  /** The properties for whose name the patch carries no field. */
  function Unflagged(ps: seq<Property>, present: seq<bool>): seq<Property>
    requires |present| <= |PATCHABLE|
  {
    if ps == [] then []
    else (if Flagged(present, ps[0].name) then [] else [ps[0]]) + Unflagged(ps[1..], present)
  }

  lemma {:induction false} UntouchedIsUnflagged(ps: seq<Property>, present: seq<bool>)
    requires |present| <= |PATCHABLE|
    ensures Untouched(ps, PatchedNames(present)) == Unflagged(ps, present)
  {
    hide PatchedNames, Flagged;
    if ps != [] {
      UntouchedIsUnflagged(ps[1..], present);
      PatchedNamesExact(present, ps[0].name);
    }
  }

  ghost predicate NoneNamed(ps: seq<Property>, name: string) {
    forall p :: p in ps ==> p.name != name
  }

  lemma {:induction false} UntouchedAppend(a: seq<Property>, b: seq<Property>, names: seq<string>)
    ensures Untouched(a + b, names) == Untouched(a, names) + Untouched(b, names)
  {
    if a == [] {
      assert a + b == b;
    } else {
      assert (a + b)[1..] == a[1..] + b;
      UntouchedAppend(a[1..], b, names);
    }
  }

  lemma {:induction false} AllTouched(ps: seq<Property>, names: seq<string>)
    requires forall p :: p in ps ==> p.name in names
    ensures Untouched(ps, names) == []
  {
    if ps != [] { AllTouched(ps[1..], names); }
  }

  lemma {:induction false} PendingTouched(names: seq<string>, all: seq<string>, emitted: set<string>, canonical: seq<Property>)
    requires forall n :: n in names ==> n in all
    ensures forall p :: p in Pending(names, emitted, canonical) ==> p.name in all && p.name !in emitted && p in canonical
  {
    if names != [] { PendingTouched(names[..|names| - 1], all, emitted, canonical); }
  }

  /** What one step writes comes from the patch, except the untouched property itself. */
  lemma StepTouched(ps: seq<Property>, i: nat, names: seq<string>, emitted: set<string>, canonical: seq<Property>)
    requires i < |ps|
    ensures forall p :: p in Lead(ps, i, names, emitted, canonical) ==> p.name in names && p.name !in emitted && p in canonical
    ensures ps[i].name in names ==> forall p :: p in Here(ps, i, names, emitted, canonical) ==>
              p.name == ps[i].name && p.name !in emitted && p in canonical
    ensures emitted <= AfterHere(ps, i, names, emitted)
  {
    PendingTouched(names, names, emitted, canonical);
  }

  /** Untouched properties survive byte for byte and in order. */
  lemma {:induction false} SpliceKeepsUntouched(
    ps: seq<Property>, i: nat, names: seq<string>, emitted: set<string>, canonical: seq<Property>)
    requires i <= |ps|
    ensures Untouched(SpliceFrom(ps, i, names, emitted, canonical), names) == Untouched(ps[i..], names)
    decreases |ps| - i
  {
    hide Lead, Named, AfterHere;
    if i < |ps| {
      var lead, here := Lead(ps, i, names, emitted, canonical), Here(ps, i, names, emitted, canonical);
      var tail := SpliceFrom(ps, i + 1, names, AfterHere(ps, i, names, emitted), canonical);
      SpliceKeepsUntouched(ps, i + 1, names, AfterHere(ps, i, names, emitted), canonical);
      assert SpliceFrom(ps, i, names, emitted, canonical) == lead + here + tail;
      StepTouched(ps, i, names, emitted, canonical);
      hide SpliceFrom, Untouched;
      UntouchedStep(ps, i, names, lead, here, tail);
    }
  }

  lemma UntouchedStep(ps: seq<Property>, i: nat, names: seq<string>, lead: seq<Property>, here: seq<Property>, tail: seq<Property>)
    requires i < |ps| && forall p :: p in lead ==> p.name in names
    requires if ps[i].name in names then forall p :: p in here ==> p.name in names else here == [ps[i]]
    ensures Untouched(lead + here + tail, names) == Untouched([ps[i]], names) + Untouched(tail, names)
    ensures Untouched(ps[i..], names) == Untouched([ps[i]], names) + Untouched(ps[i + 1..], names)
  {
    UntouchedAppend(lead + here, tail, names);
    UntouchedAppend(lead, here, names);
    assert ps[i..] == [ps[i]] + ps[i + 1..];
    UntouchedAppend([ps[i]], ps[i + 1..], names);
    AllTouched(lead, names);
    if ps[i].name in names {
      AllTouched(here, names);
      AllTouched([ps[i]], names);
    }
  }

  /** Once a name has been emitted it never appears again. */
  lemma {:induction false} EmittedStaysOut(
    ps: seq<Property>, i: nat, names: seq<string>, emitted: set<string>, canonical: seq<Property>, name: string)
    requires i <= |ps| && name in names && name in emitted
    ensures NoneNamed(SpliceFrom(ps, i, names, emitted, canonical), name)
    decreases |ps| - i
  {
    hide Lead, AfterHere, Named;
    if i < |ps| {
      StepTouched(ps, i, names, emitted, canonical);
      EmittedStaysOut(ps, i + 1, names, AfterHere(ps, i, names, emitted), canonical, name);
    }
  }

  lemma {:induction false} PendingBlock(names: seq<string>, emitted: set<string>, canonical: seq<Property>, name: string)
    returns (a: seq<Property>, b: seq<Property>)
    requires Distinct(names) && name in names && name !in emitted
    ensures Pending(names, emitted, canonical) == a + Named(canonical, name) + b && NoneNamed(a, name) && NoneNamed(b, name)
  {
    hide Named;
    var n := |names| - 1;
    if names[n] == name {
      a, b := Pending(names[..n], emitted, canonical), [];
      PendingTouched(names[..n], names[..n], emitted, canonical);
      assert a + Named(canonical, name) + [] == a + Named(canonical, name);
    } else {
      var more := if names[n] in emitted then [] else Named(canonical, names[n]);
      a, b := PendingBlock(names[..n], emitted, canonical, name);
      assert a + Named(canonical, name) + (b + more) == a + Named(canonical, name) + b + more;
      b := b + more;
    }
  }

  /** A patched name's replacement block stands exactly once, contiguous and in order. */
  lemma {:induction false} SpliceBlock(
    ps: seq<Property>, i: nat, names: seq<string>, emitted: set<string>, canonical: seq<Property>, name: string)
    returns (a: seq<Property>, b: seq<Property>)
    requires i < |ps| && Distinct(names) && name in names && name !in emitted
    ensures SpliceFrom(ps, i, names, emitted, canonical) == a + Named(canonical, name) + b
    ensures NoneNamed(a, name) && NoneNamed(b, name)
    decreases |ps| - i
  {
    var block := Named(canonical, name);
    var lead, here := Lead(ps, i, names, emitted, canonical), Here(ps, i, names, emitted, canonical);
    var done := AfterHere(ps, i, names, emitted);
    var tail := SpliceFrom(ps, i + 1, names, done, canonical);
    assert SpliceFrom(ps, i, names, emitted, canonical) == lead + here + tail;
    StepCases(ps, i, names, emitted, canonical, name);
    hide Named, SpliceFrom, Lead, Here, AfterHere, Pending, NoneNamed, Distinct;
    if i + 1 == |ps| {
      var c, d := PendingBlock(names, emitted, canonical, name);
      EmittedStaysOut(ps, i + 1, names, done, canonical, name);
      b := Surround(lead, c, block, d, here, tail, name);
      a := c;
    } else if ps[i].name == name {
      EmittedStaysOut(ps, i + 1, names, done, canonical, name);
      NoneEmpty(name);
      a, b := [], tail;
    } else {
      var c, d := SpliceBlock(ps, i + 1, names, done, canonical, name);
      a := Precede(here, c, block, d, tail, name);
      b := d;
    }
  }

  lemma Surround(lead: seq<Property>, c: seq<Property>, block: seq<Property>, d: seq<Property>,
                 here: seq<Property>, tail: seq<Property>, name: string) returns (b: seq<Property>)
    requires lead == c + block + d && NoneNamed(d, name) && NoneNamed(here, name) && NoneNamed(tail, name)
    ensures lead + here + tail == c + block + b && NoneNamed(b, name)
  {
    b := d + here + tail;
  }

  lemma Precede(here: seq<Property>, c: seq<Property>, block: seq<Property>, d: seq<Property>, tail: seq<Property>, name: string)
    returns (a: seq<Property>)
    requires tail == c + block + d && NoneNamed(here, name) && NoneNamed(c, name)
    ensures [] + here + tail == a + block + d && NoneNamed(a, name)
  {
    a := here + c;
  }

  lemma NoneEmpty(name: string)
    ensures NoneNamed([], name)
  {
  }

  /** What a step does for a name that is still to be emitted. */
  lemma StepCases(ps: seq<Property>, i: nat, names: seq<string>, emitted: set<string>, canonical: seq<Property>, name: string)
    requires i < |ps| && name in names && name !in emitted
    ensures i + 1 == |ps| ==>
      && Lead(ps, i, names, emitted, canonical) == Pending(names, emitted, canonical)
      && NoneNamed(Here(ps, i, names, emitted, canonical), name) && name in AfterHere(ps, i, names, emitted)
    ensures i + 1 < |ps| ==> Lead(ps, i, names, emitted, canonical) == []
    ensures i + 1 < |ps| && ps[i].name == name ==>
      Here(ps, i, names, emitted, canonical) == Named(canonical, name) && name in AfterHere(ps, i, names, emitted)
    ensures i + 1 < |ps| && ps[i].name != name ==>
      NoneNamed(Here(ps, i, names, emitted, canonical), name) && name !in AfterHere(ps, i, names, emitted)
  {
  }

  /** The first and the last property stay in place. */
  lemma SpliceEnds(ps: seq<Property>, names: seq<string>, canonical: seq<Property>)
    requires |ps| >= 2 && ps[0].name !in names && ps[|ps| - 1].name !in names
    ensures var s := Splice(ps, names, canonical);
            |s| >= 2 && s[0] == ps[0] && s[|s| - 1] == ps[|ps| - 1]
  {
    var front := LastOfSplice(ps, 1, names, AfterHere(ps, 0, names, {}), canonical);
  }

  lemma {:induction false} LastOfSplice(
    ps: seq<Property>, i: nat, names: seq<string>, emitted: set<string>, canonical: seq<Property>)
    returns (front: seq<Property>)
    requires i < |ps| && ps[|ps| - 1].name !in names
    ensures SpliceFrom(ps, i, names, emitted, canonical) == front + [ps[|ps| - 1]]
    decreases |ps| - i
  {
    hide Lead, AfterHere;
    var lead, here := Lead(ps, i, names, emitted, canonical), Here(ps, i, names, emitted, canonical);
    var done := AfterHere(ps, i, names, emitted);
    if i + 1 == |ps| {
      front := lead;
      assert SpliceFrom(ps, i + 1, names, done, canonical) == [];
    } else {
      var rest := LastOfSplice(ps, i + 1, names, done, canonical);
      front := lead + here + rest;
      assert lead + here + (rest + [ps[|ps| - 1]]) == front + [ps[|ps| - 1]];
    }
  }

  /** Every spliced property is a block in its own right. */
  lemma {:induction false} SpliceBlocks(
    ps: seq<Property>, i: nat, names: seq<string>, emitted: set<string>, canonical: seq<Property>)
    requires i <= |ps|
    requires (forall p :: p in ps ==> IsBlock(p)) && forall p :: p in canonical ==> IsBlock(p)
    ensures forall p :: p in SpliceFrom(ps, i, names, emitted, canonical) ==> IsBlock(p)
    decreases |ps| - i
  {
    hide IsBlock, Named, Lead, AfterHere;
    if i < |ps| {
      StepTouched(ps, i, names, emitted, canonical);
      SpliceBlocks(ps, i + 1, names, AfterHere(ps, i, names, emitted), canonical);
    }
  }

  // --- Encoding ---------------------------------------------------------------------------------

  method WriteAll(output: string, ps: seq<Property>) returns (out: string)
    ensures out == output + Bytes(ps)
  {
    out := output;
    for k := 0 to |ps|
      invariant out == output + Bytes(ps[..k])
    {
      assert ps[..k + 1] == ps[..k] + [ps[k]];
      BytesAppend(ps[..k], [ps[k]]);
      assert Bytes([ps[k]]) == ps[k].raw + Bytes([]);
      out := out + ps[k].raw;
    }
    assert ps[..|ps|] == ps;
  }

  /** The leftovers written before the last property. */
  method WritePending(output: string, names: seq<string>, emitted: set<string>, canonical: seq<Property>)
    returns (out: string, done: set<string>)
    requires Distinct(names)
    ensures out == output + Bytes(Pending(names, emitted, canonical))
    ensures done == emitted + set n | n in names
  {
    hide Named, Bytes;
    out, done := output, emitted;
    BytesEmpty();
    for k := 0 to |names|
      invariant out == output + Bytes(Pending(names[..k], emitted, canonical))
      invariant done == emitted + set n | n in names[..k]
    {
      assert names[..k + 1][..k] == names[..k];
      assert names[..k + 1] == names[..k] + [names[k]];
      assert names[k] !in names[..k];
      BytesAppend(Pending(names[..k], emitted, canonical), if names[k] in emitted then [] else Named(canonical, names[k]));
      if names[k] !in done {
        out := WriteAll(out, Named(canonical, names[k]));
        done := done + {names[k]};
      }
    }
    assert names[..|names|] == names;
  }

  lemma BytesEmpty()
    ensures Bytes([]) == ""
  {
  }

  /** One property's turn: leftovers first, then the property or its replacement. */
  method WriteStep(output: string, ps: seq<Property>, i: nat, names: seq<string>, emitted: set<string>, canonical: seq<Property>)
    returns (out: string, done: set<string>)
    requires i < |ps| && Distinct(names)
    ensures out == output + Bytes(Lead(ps, i, names, emitted, canonical)) + Bytes(Here(ps, i, names, emitted, canonical))
    ensures done == AfterHere(ps, i, names, emitted)
  {
    hide Named, Bytes, Pending, Distinct;
    BytesEmpty();
    out, done := output, emitted;
    if i == |ps| - 1 {
      out, done := WritePending(output, names, emitted, canonical);
    }
    assert out == output + Bytes(Lead(ps, i, names, emitted, canonical)) && done == AfterLead(ps, i, names, emitted);
    hide Lead, AfterLead;
    var name := ps[i].name;
    if name !in names {
      out := WriteAll(out, [ps[i]]);
    } else if name !in done {
      out := WriteAll(out, Named(canonical, name));
      done := done + {name};
    }
  }

  /** The bytes written are the bytes of the splice. */
  method WritePatched(ps: seq<Property>, names: seq<string>, canonical: seq<Property>) returns (output: string)
    requires Distinct(names)
    ensures output == Bytes(Splice(ps, names, canonical))
  {
    hide Bytes, SpliceFrom, Lead, Here, AfterHere, Distinct;
    output := "";
    var emitted: set<string> := {};
    for i := 0 to |ps|
      invariant Bytes(Splice(ps, names, canonical)) == output + Bytes(SpliceFrom(ps, i, names, emitted, canonical))
    {
      StepBytes(ps, i, names, emitted, canonical);
      RegroupFour(output, Bytes(Lead(ps, i, names, emitted, canonical)), Bytes(Here(ps, i, names, emitted, canonical)),
                  Bytes(SpliceFrom(ps, i + 1, names, AfterHere(ps, i, names, emitted), canonical)));
      output, emitted := WriteStep(output, ps, i, names, emitted, canonical);
    }
    SpliceDone(ps, names, emitted, canonical);
  }

  lemma SpliceDone(ps: seq<Property>, names: seq<string>, emitted: set<string>, canonical: seq<Property>)
    ensures Bytes(SpliceFrom(ps, |ps|, names, emitted, canonical)) == ""
  {
  }

  lemma StepBytes(ps: seq<Property>, i: nat, names: seq<string>, emitted: set<string>, canonical: seq<Property>)
    requires i < |ps|
    ensures Bytes(SpliceFrom(ps, i, names, emitted, canonical)) ==
            Bytes(Lead(ps, i, names, emitted, canonical)) + (Bytes(Here(ps, i, names, emitted, canonical))
            + Bytes(SpliceFrom(ps, i + 1, names, AfterHere(ps, i, names, emitted), canonical)))
  {
    hide Lead, Here, AfterHere, Bytes;
    var lead, here := Lead(ps, i, names, emitted, canonical), Here(ps, i, names, emitted, canonical);
    var tail := SpliceFrom(ps, i + 1, names, AfterHere(ps, i, names, emitted), canonical);
    BytesAppend(lead + here, tail);
    BytesAppend(lead, here);
    assert Bytes(lead) + Bytes(here) + Bytes(tail) == Bytes(lead) + (Bytes(here) + Bytes(tail));
  }

  /** Why a spliced card is sent: it fits, it is a valid 3.0 card, and the decoder takes it. */
  predicate PatchAccepted(patched: seq<Property>, serverMax: int, blank: string -> bool, decodes: string -> bool) {
    && |Bytes(patched)| <= (if 0 < serverMax < MAX_CARD_BYTES then serverMax else MAX_CARD_BYTES)
    && ValidCard(patched, blank) && |patched| <= MAX_PROPERTIES + 2 && decodes(Bytes(patched))
    && Named(patched, "VERSION")[0].value == "3.0"
  }

  /**
   Patching: an accepted result re-parses to exactly the splice of the original list.
   `canonical` is the parsed canonical encoding of the patched fields, `decodes` the
   opaque decoder's extra verdict, and `limit` the resource limit.
   */
  method EncodePatchedCard(
    ps: seq<Property>, present: seq<bool>, canonical: seq<Property>, serverMax: int,
    blank: string -> bool, decodes: string -> bool)
    returns (r: Result<string>)
    requires |present| <= |PATCHABLE|
    requires (forall p :: p in ps ==> IsBlock(p)) && forall p :: p in canonical ==> IsBlock(p)
    ensures r.Ok? ==>
      var patched := Splice(ps, PatchedNames(present), canonical);
      && r.value == Bytes(patched) && Denotes(r.value, patched) && ValidCard(patched, blank)
      && |r.value| <= MAX_CARD_BYTES && (serverMax > 0 ==> |r.value| <= serverMax)
      && Named(patched, "VERSION")[0].value == "3.0"
    ensures r.Ok? <==> PatchAccepted(Splice(ps, PatchedNames(present), canonical), serverMax, blank, decodes)
  {
    hide Splice, Bytes, IsBlock, ValidCard, Denotes, Named, PatchedNames;
    var names := PatchedNames(present);
    PatchedNamesDistinct(present);
    var output := WritePatched(ps, names, canonical);
    var limit := if 0 < serverMax < MAX_CARD_BYTES then serverMax else MAX_CARD_BYTES;
    if |output| > limit {
      return Err(TooLarge);
    }
    ghost var patched := Splice(ps, names, canonical);
    SpliceDenotes(ps, names, canonical);
    var parsed := ParseRawCard(output, blank);
    if parsed.Err? {
      return Err(parsed.error);
    }
    DenotesUnique(output, parsed.value, patched);
    ValidHasVersion(parsed.value, blank);
    if !decodes(output) || Named(parsed.value, "VERSION")[0].value != "3.0" {
      return Err(Invalid);
    }
    r := Ok(output);
  }

  lemma ValidHasVersion(ps: seq<Property>, blank: string -> bool)
    requires ValidCard(ps, blank)
    ensures |Named(ps, "VERSION")| == 1
  {
    hide Upper, CountUnescaped;
  }

  lemma SpliceDenotes(ps: seq<Property>, names: seq<string>, canonical: seq<Property>)
    requires (forall p :: p in ps ==> IsBlock(p)) && forall p :: p in canonical ==> IsBlock(p)
    ensures Denotes(Bytes(Splice(ps, names, canonical)), Splice(ps, names, canonical))
  {
    hide IsBlock, Bytes, SpliceFrom;
    SpliceBlocks(ps, 0, names, {}, canonical);
  }

  /** `block` stands once in `s`, unbroken, and holds every property of that name. */
  ghost predicate OneBlock(s: seq<Property>, name: string, block: seq<Property>) {
    exists a, b :: NoneNamed(a, name) && NoneNamed(b, name) && s == a + block + b
  }

  lemma BlockOnce(ps: seq<Property>, names: seq<string>, canonical: seq<Property>, name: string)
    requires ps != [] && Distinct(names) && name in names
    ensures OneBlock(Splice(ps, names, canonical), name, Named(canonical, name))
  {
    hide Named, SpliceFrom, NoneNamed;
    var a, b := SpliceBlock(ps, 0, names, {}, canonical, name);
  }

  lemma {:induction false} PatchedNamesPatchable(present: seq<bool>, name: string)
    requires |present| <= |PATCHABLE| && name in PatchedNames(present)
    ensures name in PATCHABLE
  {
    var i :| 0 <= i < |PatchedNames(present)| && PatchedNames(present)[i] == name;
    assert name in PATCHABLE[..|present|];
  }

  /** Patching a valid card is a splice: only the patched names change, and the frame of the card stays. */
  lemma PatchIsSplice(ps: seq<Property>, present: seq<bool>, canonical: seq<Property>, blank: string -> bool)
    requires |present| <= |PATCHABLE| && ValidCard(ps, blank)
    ensures var s := Splice(ps, PatchedNames(present), canonical);
      && Unflagged(s, present) == Unflagged(ps, present)
      && (forall i :: 0 <= i < |present| && present[i] ==> OneBlock(s, PATCHABLE[i], Named(canonical, PATCHABLE[i])))
      && |s| >= 2 && s[0] == ps[0] && s[|s| - 1] == ps[|ps| - 1]
  {
    hide Named, SpliceFrom, Untouched, Unflagged, PatchedNames, Upper, CountUnescaped, OneBlock;
    var names := PatchedNames(present);
    PatchedNamesDistinct(present);
    PatchableDistinct();
    forall n | n in names ensures n in PATCHABLE {
      PatchedNamesPatchable(present, n);
    }
    SpliceKeepsUntouched(ps, 0, names, {}, canonical);
    assert ps[0..] == ps;
    forall n | n in names ensures OneBlock(Splice(ps, names, canonical), n, Named(canonical, n)) {
      BlockOnce(ps, names, canonical, n);
    }
    SpliceEnds(ps, names, canonical);
    UntouchedIsUnflagged(ps, present);
    UntouchedIsUnflagged(Splice(ps, names, canonical), present);
    forall i | 0 <= i < |present| ensures PATCHABLE[i] in names <==> present[i] {
      FlagDecides(present, i);
    }
  }
}
