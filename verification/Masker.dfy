/**
 The stateless masker (stateless_template in core/src/mask/mask.cpp): a line's tokens in turn, each kept,
 normalized or masked, the template their forms joined by single spaces and the params the tokens masked
 whole. Template and params are in bijection.
 */
module Masker {
  import opened Wrappers
  import opened Text
  import opened MaskPieces
  import opened MaskRules
  import opened MaskPaths
  import DeclaredRuns
  import Intent
  import JsonDocument
  import JsonEmit

  // ----- tokens -----

  predicate Space(c: char) {
    c == ' '
  }

  predicate NoSpace(c: char) {
    c != ' '
  }

  /** `for_each_token`: the maximal runs of bytes other than the space. */
  function Tokens(line: string, pos: nat): seq<string>
    requires pos <= |line|
    decreases |line| - pos
  {
    var start := RunEnd(line, pos, Space);
    if start == |line| then []
    else
      var end := RunEnd(line, start, NoSpace);
      assert end > start;
      [line[start..end]] + Tokens(line, end)
  }

  predicate IsToken(s: string) {
    s != "" && SpaceFree(s)
  }

  function Joined(units: seq<string>): string {
    if |units| == 0 then ""
    else if |units| == 1 then units[0]
    else Joined(units[..|units| - 1]) + " " + units[|units| - 1]
  }

  lemma {:induction false} TokensAreTokens(line: string, pos: nat, k: nat)
    requires pos <= |line| && k < |Tokens(line, pos)|
    ensures IsToken(Tokens(line, pos)[k])
    decreases |line| - pos
  {
    var start := RunEnd(line, pos, Space);
    var end := RunEnd(line, start, NoSpace);
    if k > 0 {
      TokensAreTokens(line, end, k - 1);
    } else {
      var tok := line[start..end];
      assert Every(NoSpace, tok);
      forall i | 0 <= i < |tok|
        ensures tok[i] != ' '
      {
        assert NoSpace(tok[i]);
      }
    }
  }

  lemma {:induction false} TokensAppend(s: string, pos: nat, u: string)
    requires pos <= |s| && IsToken(u)
    ensures Tokens(s + " " + u, pos) == Tokens(s, pos) + [u]
    decreases |s| - pos
  {
    var whole := s + " " + u;
    var start := RunEnd(s, pos, Space);
    if start == |s| {
      LastToken(s, pos, u);
    } else {
      var end := RunEnd(s, start, NoSpace);
      RunWithin(s, whole, pos, start, Space);
      RunWithin(s, whole, start, end, NoSpace);
      assert whole[start..end] == s[start..end];
      TokensAppend(s, end, u);
    }
  }

  /** A run that ends inside a prefix, or at its end where the next byte ends it too, is the same run. */
  lemma {:induction false} RunWithin(s: string, whole: string, pos: nat, end: nat, ok: char -> bool)
    requires s <= whole && pos <= end <= |s| && RunEnd(s, pos, ok) == end
    requires end < |whole| ==> !ok(whole[end])
    ensures RunEnd(whole, pos, ok) == end
  {
    SliceIsAt(whole, pos, end);
    assert whole[pos..end] == s[pos..end];
    RunExact(whole, pos, ok, whole[pos..end]);
  }

  lemma {:induction false} LastToken(s: string, pos: nat, u: string)
    requires pos <= |s| && RunEnd(s, pos, Space) == |s| && IsToken(u)
    ensures Tokens(s + " " + u, pos) == [u]
  {
    var whole := s + " " + u;
    var blanks := s[pos..] + " ";
    assert whole[pos..pos + |blanks|] == blanks;
    assert Every(Space, s[pos..|s|]) && s[pos..] == s[pos..|s|];
    assert Every(Space, blanks);
    SliceIsAt(whole, pos, pos + |blanks|);
    assert whole[|s| + 1] == u[0];
    RunExact(whole, pos, Space, blanks);
    OnlyToken(whole, |s| + 1, u);
  }

  lemma {:induction false} OnlyToken(whole: string, at: nat, u: string)
    requires IsToken(u) && at + |u| == |whole| && whole[at..] == u
    ensures RunEnd(whole, at, NoSpace) == |whole| && whole[at..|whole|] == u
    ensures Tokens(whole, |whole|) == []
  {
    assert whole[at..|whole|] == u;
    SliceIsAt(whole, at, |whole|);
    assert Every(NoSpace, u);
    RunExact(whole, at, NoSpace, u);
  }

  predicate AllTokens(units: seq<string>) {
    forall i :: 0 <= i < |units| ==> IsToken(units[i])
  }

  /** Tokens joined by single spaces are read back as those tokens. */
  lemma {:induction false} TokensOfJoined(units: seq<string>)
    requires AllTokens(units)
    ensures Tokens(Joined(units), 0) == units
  {
    hide IsToken;
    var n := |units|;
    if n == 1 {
      SingleToken(units[0]);
      assert units == [units[0]];
    } else if n > 1 {
      TokensOfJoined(units[..n - 1]);
      TokensAppend(Joined(units[..n - 1]), 0, units[n - 1]);
      assert units == units[..n - 1] + [units[n - 1]];
    }
  }

  lemma {:induction false} SingleToken(u: string)
    requires IsToken(u)
    ensures Tokens(u, 0) == [u]
  {
    assert u[0..] == u;
    OnlyToken(u, 0, u);
    assert RunEnd(u, 0, Space) == 0;
  }

  // ----- the segment step -----

  const SEGMENT_DELIMITER := ';'

  predicate SegmentKey(key: string) {
    key != "" && (Alpha(key[0]) || key[0] == '_') && forall i :: 0 <= i < |key| ==> LeadKeyByte(key[i])
  }

  /** Where a segment's key starts: the first segment may open with wrapper bytes. */
  function LeadOf(seg: string, first: bool, eq: nat): (lead: nat)
    requires eq <= |seg|
    ensures lead <= eq
  {
    var run := RunEnd(seg, 0, WrapperOpen);
    if !first then 0 else if run < eq then run else eq
  }

  method SkipLead(seg: string, first: bool, eq: nat) returns (lead: nat)
    requires eq <= |seg|
    ensures lead == LeadOf(seg, first, eq)
  {
    lead := 0;
    while first && lead < eq && WrapperOpen(seg[lead])
      invariant lead <= eq && RunEnd(seg, lead, WrapperOpen) == RunEnd(seg, 0, WrapperOpen)
      invariant !first ==> lead == 0
    {
      lead := lead + 1;
    }
  }

  /** The range of a `key=value` segment's value that is masked. */
  function SegmentRange(seg: string, first: bool): (range: Option<(nat, nat)>)
    ensures range.Some? ==> range.value.0 < range.value.1 <= |seg| && DigitLeading(seg[range.value.0..(range.value.1)])
  {
    var eq :- FirstOf(seg, '=', 0);
    if eq == 0 then None
    else
      var lead := LeadOf(seg, first, eq);
      if SegmentKey(seg[lead..eq]) then MaskedValue(seg, lead, eq + 1) else None
  }

  /** `append_segment`: that range masked, any other segment kept. */
  function SegmentPieces(seg: string, first: bool): (ps: seq<Piece>)
    ensures SourceOf(ps) == seg
  {
    var range := SegmentRange(seg, first);
    SegmentSource(seg, range);
    if range.None? then [Kept(seg)] else MaskRange(seg, range.value.0, range.value.1)
  }

  lemma {:induction false} SegmentSource(seg: string, range: Option<(nat, nat)>)
    requires range.Some? ==> range.value.0 < range.value.1 <= |seg|
    ensures range.None? ==> SourceOf([Kept(seg)]) == seg
    ensures range.Some? ==> SourceOf(MaskRange(seg, range.value.0, range.value.1)) == seg
  {
    if range.Some? {
      MaskRangeSource(seg, range.value.0, range.value.1);
    } else {
      KeptWhole(seg);
    }
  }

  lemma {:induction false} KeptWhole(s: string)
    ensures SourceOf([Kept(s)]) == s
  {
    OnePiece(Kept(s));
  }

  /** The segments of a form from `start` on, their delimiters kept. */
  function SegmentsFrom(form: string, start: nat): (ps: seq<Piece>)
    requires start <= |form|
    ensures SourceOf(ps) == form[start..]
    decreases |form| - start
  {
    match FirstOf(form, SEGMENT_DELIMITER, start)
    case None =>
      assert form[start..|form|] == form[start..];
      SegmentPieces(form[start..], start == 0)
    case Some(delim) =>
      var seg, rest := SegmentPieces(form[start..delim], start == 0), SegmentsFrom(form, delim + 1);
      DelimitedSource(form, start, delim, seg, rest);
      seg + ([Kept([SEGMENT_DELIMITER])] + rest)
  }

  lemma {:induction false} DelimitedSource(form: string, start: nat, delim: nat, seg: seq<Piece>, rest: seq<Piece>)
    requires start <= delim < |form| && form[delim] == SEGMENT_DELIMITER
    requires SourceOf(seg) == form[start..delim] && SourceOf(rest) == form[delim + 1..]
    ensures SourceOf(seg + ([Kept([SEGMENT_DELIMITER])] + rest)) == form[start..]
  {
    hide SourceOf;
    SourceConcat(seg, [Kept([SEGMENT_DELIMITER])] + rest);
    SourceConcat([Kept([SEGMENT_DELIMITER])], rest);
    KeptWhole([SEGMENT_DELIMITER]);
    assert form[start..] == form[start..delim] + ([SEGMENT_DELIMITER] + form[delim + 1..]);
  }

  /** `mask_segment_values`: the form with its segments' values masked, when one moved. */
  function SegmentStep(form: string): string {
    if SEGMENT_DELIMITER !in form || '=' !in form || !Masks(SegmentsFrom(form, 0)) then form else Rendered(SegmentsFrom(form, 0))
  }

  lemma {:induction false} SegmentStepToken(form: string)
    requires IsToken(form)
    ensures IsToken(SegmentStep(form))
  {
    assert form[0..] == form;
    RenderedIsToken(SegmentsFrom(form, 0));
  }

  lemma {:induction false} SegmentRendered(seg: string, first: bool)
    ensures Masks(SegmentPieces(seg, first)) <==> SegmentRange(seg, first).Some?
    ensures Rendered(SegmentPieces(seg, first)) ==
      match SegmentRange(seg, first)
      case None => seg
      case Some(range) => seg[..range.0] + WILDCARD + seg[range.1..]
  {
    hide SegmentRange;
    match SegmentRange(seg, first)
    case None =>
      OnePiece(Kept(seg));
      assert !Masks([Kept(seg)]);
    case Some(range) =>
      MaskRangeSource(seg, range.0, range.1);
  }

  lemma {:induction false} SegmentRangeIs(seg: string, first: bool)
    ensures var eq := FirstOf(seg, '=', 0);
      SegmentRange(seg, first) ==
      if eq.None? || eq.value == 0 || !SegmentKey(seg[LeadOf(seg, first, eq.value)..eq.value]) then None
      else MaskedValue(seg, LeadOf(seg, first, eq.value), eq.value + 1)
  {
    hide FirstOf, SegmentKey, LeadOf, MaskedValue;
  }

  lemma {:induction false} SegmentShown(seg: string, first: bool)
    ensures var eq, ps := FirstOf(seg, '=', 0), SegmentPieces(seg, first);
      if eq.None? || eq.value == 0 || !SegmentKey(seg[LeadOf(seg, first, eq.value)..eq.value]) then !Masks(ps) && Rendered(ps) == seg
      else
        match MaskedValue(seg, LeadOf(seg, first, eq.value), eq.value + 1)
        case None => !Masks(ps) && Rendered(ps) == seg
        case Some(range) => Masks(ps) && Rendered(ps) == seg[..range.0] + WILDCARD + seg[range.1..]
  {
    hide SegmentPieces, SegmentKey, MaskedValue, LeadOf, SegmentRange, FirstOf, Masks, Rendered, SourceOf, DigitLeading;
    SegmentRendered(seg, first);
    SegmentRangeIs(seg, first);
  }

  /** `append_segment`. */
  method AppendSegment(seg: string, first: bool, before: string) returns (masked: bool, out: string)
    ensures masked == Masks(SegmentPieces(seg, first)) && out == before + Rendered(SegmentPieces(seg, first))
  {
    hide SegmentPieces, SegmentKey, MaskedValue, LeadOf, FirstOf, Masks, Rendered, SourceOf, DigitLeading;
    SegmentShown(seg, first);
    var eq := FirstOf(seg, '=', 0);
    if eq.None? || eq.value == 0 {
      return false, before + seg;
    }
    var lead := SkipLead(seg, first, eq.value);
    masked := false;
    if SegmentKey(seg[lead..eq.value]) {
      masked, out := AppendMaskedValue(seg, lead, eq.value + 1, before);
    }
    if !masked {
      out := before + seg;
    }
  }

  /** `mask_segment_values`: false, and no form, when no segment moved. */
  method MaskSegmentValues(form: string) returns (moved: bool, out: string)
    ensures moved <==> SEGMENT_DELIMITER in form && '=' in form && Masks(SegmentsFrom(form, 0))
    ensures SegmentStep(form) == if moved then out else form
  {
    hide SegmentPieces, Masks, Rendered, SegmentsFrom, FirstOf, SourceOf;
    moved, out := false, "";
    if SEGMENT_DELIMITER !in form || '=' !in form {
      return;
    }
    var start := 0;
    ghost var whole := SegmentsFrom(form, 0);
    while true
      invariant 0 <= start <= |form|
      invariant out + Rendered(SegmentsFrom(form, start)) == Rendered(whole)
      invariant moved || Masks(SegmentsFrom(form, start)) <==> Masks(whole)
      decreases |form| - start
    {
      SegmentTurn(form, start, out);
      var delim := FirstOf(form, SEGMENT_DELIMITER, start);
      var end := if delim.None? then |form| else delim.value;
      var masked, grown := AppendSegment(form[start..end], start == 0, out);
      moved, out := masked || moved, grown;
      if delim.None? {
        return;
      }
      out := out + [SEGMENT_DELIMITER];
      start := end + 1;
    }
  }

  /** One turn of the segment loop. */
  lemma {:induction false} SegmentTurn(form: string, start: nat, out: string)
    requires start <= |form|
    ensures match FirstOf(form, SEGMENT_DELIMITER, start)
      case None => SegmentsFrom(form, start) == SegmentPieces(form[start..|form|], start == 0)
      case Some(delim) =>
        var seg, rest := SegmentPieces(form[start..delim], start == 0), SegmentsFrom(form, delim + 1);
        && ((out + Rendered(seg)) + [SEGMENT_DELIMITER]) + Rendered(rest) == out + Rendered(SegmentsFrom(form, start))
        && (Masks(SegmentsFrom(form, start)) <==> Masks(seg) || Masks(rest))
  {
    hide SegmentPieces, FirstOf, Rendered, Masks, SourceOf;
    SegmentsAre(form, start);
    var found := FirstOf(form, SEGMENT_DELIMITER, start);
    if found.Some? {
      Delimited(SegmentPieces(form[start..found.value], start == 0), SegmentsFrom(form, found.value + 1), out);
    }
  }

  lemma {:induction false} SegmentsAre(form: string, start: nat)
    requires start <= |form|
    ensures match FirstOf(form, SEGMENT_DELIMITER, start)
      case None => SegmentsFrom(form, start) == SegmentPieces(form[start..|form|], start == 0)
      case Some(delim) =>
        SegmentsFrom(form, start) == SegmentPieces(form[start..delim], start == 0) + ([Kept([SEGMENT_DELIMITER])] + SegmentsFrom(form, delim + 1))
  {
    hide SegmentPieces, FirstOf, SourceOf;
    assert form[start..|form|] == form[start..];
  }

  lemma {:induction false} Delimited(seg: seq<Piece>, rest: seq<Piece>, out: string)
    ensures ((out + Rendered(seg)) + [SEGMENT_DELIMITER]) + Rendered(rest) == out + Rendered(seg + ([Kept([SEGMENT_DELIMITER])] + rest))
    ensures Masks(seg + ([Kept([SEGMENT_DELIMITER])] + rest)) <==> Masks(seg) || Masks(rest)
  {
    var tail := [Kept([SEGMENT_DELIMITER])] + rest;
    OnePiece(Kept([SEGMENT_DELIMITER]));
    RenderedConcat(seg, tail);
    RenderedConcat([Kept([SEGMENT_DELIMITER])], rest);
    MasksConcat(seg, tail);
    MasksConcat([Kept([SEGMENT_DELIMITER])], rest);
    assert !Masks([Kept([SEGMENT_DELIMITER])]);
    hide Rendered, Masks;
    FourParts(out, Rendered(seg), [SEGMENT_DELIMITER], Rendered(rest));
  }

  lemma {:induction false} FourParts(a: string, b: string, c: string, d: string)
    ensures ((a + b) + c) + d == a + (b + (c + d))
  {
  }

  // ----- the declared runs -----

  function DeclaredStep(form: string, runs: seq<DeclaredRuns.Run>): string
    requires DeclaredRuns.GoodRuns(runs)
  {
    DeclaredRuns.ClaimsSound(form, runs);
    var claims := DeclaredRuns.Claims(form, runs);
    if runs == [] || claims == [] then form else DeclaredRuns.Replaced(form, 0, claims)
  }

  lemma {:induction false} MaskedFromToken(s: string, at: nat, spans: seq<Intent.Span>)
    requires at <= |s| && Intent.Placed(spans, at, |s|) && SpaceFree(s)
    requires forall i :: 0 <= i < |spans| ==> spans[i].mask.WildcardMask?
    ensures SpaceFree(Intent.MaskedFrom(s, at, spans))
    ensures at < |s| ==> Intent.MaskedFrom(s, at, spans) != ""
    decreases |spans|
  {
    if spans != [] {
      MaskedFromToken(s, spans[0].last, spans[1..]);
    }
  }

  lemma {:induction false} DeclaredStepToken(form: string, runs: seq<DeclaredRuns.Run>)
    requires IsToken(form) && DeclaredRuns.GoodRuns(runs)
    ensures IsToken(DeclaredStep(form, runs))
  {
    hide DeclaredRuns.GoodRuns, DeclaredRuns.Claims, DeclaredRuns.Apart;
    DeclaredRuns.ClaimsSound(form, runs);
    var claims := DeclaredRuns.Claims(form, runs);
    if runs != [] && claims != [] {
      DeclaredRuns.ApartPlaced(claims, 0, |form|);
      MaskedFromToken(form, 0, DeclaredRuns.AsSpans(claims));
    }
  }

  // ----- one token -----

  /** What becomes of a token: a param, or a form of its own in the template. */
  datatype Unit = Param | Literal(form: string)

  function UnitText(u: Unit): string {
    if u.Param? then WILDCARD else u.form
  }

  /** A normal form that is exactly the wildcard takes the mask path. */
  function FormUnit(form: string): Unit {
    if form == WILDCARD then Param else Literal(form)
  }

  function Steps(form: string, runs: seq<DeclaredRuns.Run>): string
    requires DeclaredRuns.GoodRuns(runs)
  {
    DeclaredStep(SegmentStep(form), runs)
  }

  /** The total precedence: the status keep, the composites, then the value rules. */
  function UnitOf(tok: string, prev: string, maskIps: bool, runs: seq<DeclaredRuns.Run>): Unit
    requires DeclaredRuns.GoodRuns(runs)
  {
    if AllDigit(tok) && |tok| <= MAX_STATUS_DIGITS && StatusKeyword(prev) then Literal(tok)
    else
      match TryComposite(tok)
      case Some(pieces) => FormUnit(Steps(Rendered(pieces), runs))
      case None =>
        if tok == "" || UuidOrLongHash(tok) then Param
        else if Ipv4Token(tok) then (if maskIps then Param else Literal(tok))
        else if DigitLeading(tok) || ShelledNumeric(tok, prev) then Param
        else FormUnit(Steps(tok, runs))
  }

  /** The two non-claiming steps on a normal form, in order. */
  method NormalFormSteps(form: string, runs: seq<DeclaredRuns.Run>) returns (out: string)
    requires DeclaredRuns.GoodRuns(runs)
    ensures out == Steps(form, runs)
  {
    hide SegmentStep, DeclaredRuns.GoodRuns, DeclaredRuns.Claims, DeclaredRuns.Apart, DeclaredRuns.Replaced;
    var moved, segmented := MaskSegmentValues(form);
    var after := if moved then segmented else form;
    if runs == [] {
      return after;
    }
    var declared := DeclaredRuns.ReplaceDeclaredRuns(after, runs);
    return match declared case None => after case Some(replaced) => replaced;
  }

  /** What the masker does with one token: the status keep, the composites, then `value_disposition`. */
  method MaskToken(tok: string, prev: string, maskIps: bool, runs: seq<DeclaredRuns.Run>) returns (unit: Unit)
    requires DeclaredRuns.GoodRuns(runs)
    ensures unit == UnitOf(tok, prev, maskIps, runs)
  {
    hide TryComposite, Steps, DeclaredRuns.GoodRuns, AllDigit, StatusKeyword, UuidOrLongHash, Ipv4Token, DigitLeading, ShelledNumeric, Rendered;
    if AllDigit(tok) && |tok| <= MAX_STATUS_DIGITS && StatusKeyword(prev) {
      return Literal(tok);
    }
    var claimed, composite := ComposeForm(tok);
    if claimed {
      var form := NormalFormSteps(composite, runs);
      return FormUnit(form);
    }
    if tok == "" || UuidOrLongHash(tok) {
      return Param;
    }
    if Ipv4Token(tok) {
      return if maskIps then Param else Literal(tok);
    }
    if DigitLeading(tok) || ShelledNumeric(tok, prev) {
      return Param;
    }
    var form := NormalFormSteps(tok, runs);
    return FormUnit(form);
  }

  lemma {:induction false} AddressIsNoWildcard(tok: string)
    requires Ipv4Token(tok)
    ensures tok != WILDCARD
  {
  }

  /** Each token gives one space-free, non-empty form, which is the wildcard exactly for a param. */
  lemma {:induction false} UnitIsToken(tok: string, prev: string, maskIps: bool, runs: seq<DeclaredRuns.Run>)
    requires IsToken(tok) && DeclaredRuns.GoodRuns(runs)
    ensures IsToken(UnitText(UnitOf(tok, prev, maskIps, runs)))
    ensures UnitText(UnitOf(tok, prev, maskIps, runs)) == WILDCARD <==> UnitOf(tok, prev, maskIps, runs).Param?
  {
    hide DeclaredRuns.GoodRuns, TryComposite, SegmentStep, DeclaredStep, Ipv4Token, UuidOrLongHash, ShelledNumeric, StatusKeyword;
    var form := if TryComposite(tok).Some? then Rendered(TryComposite(tok).value) else tok;
    if TryComposite(tok).Some? {
      RenderedIsToken(TryComposite(tok).value);
    }
    SegmentStepToken(form);
    DeclaredStepToken(SegmentStep(form), runs);
    if Ipv4Token(tok) {
      AddressIsNoWildcard(tok);
    }
    if AllDigit(tok) {
      assert Digit(tok[0]);
    }
  }

  lemma {:induction false} NoSearchedRule(tok: string)
    requires tok == WILDCARD
    ensures VersionedRef(tok) == None && BracketIndex(tok) == None && KvValue(tok) == None
  {
    hide RunEnd, DigitsEnd, MaskedValue, NoAlnum;
    assert LastOf(tok, '/') == None && FirstOf(tok, '[', 0) == None && FirstOf(tok, '=', 0) == None;
  }

  lemma {:induction false} NoHeadedRule(tok: string)
    requires tok == WILDCARD
    ensures BracketTimestamp(tok) == None && MarkerNumber(tok) == None && SanitizerPid(tok) == None
  {
    hide DigitsEnd, NoAlnum;
  }

  lemma {:induction false} NoCounter(tok: string)
    requires tok == WILDCARD
    ensures HashCounter(tok) == None
  {
    StarCore(tok);
    assert BareCounterEnd(tok) == None;
    hide ShellCore, BareCounterEnd;
  }

  lemma {:induction false} NoDiagnostic(tok: string)
    requires tok == WILDCARD
    ensures DiagnosticComposite(tok) == None
  {
    hide SegmentWalk;
    assert forall i :: 0 <= i < |tok| ==> tok[i] != ':';
  }

  lemma {:induction false} NoComposite(tok: string)
    requires tok == WILDCARD
    ensures TryComposite(tok) == None
  {
    hide DiagnosticComposite, EphemeralRoot, VersionedRef, BracketTimestamp, BracketIndex, HashCounter, MarkerNumber,
      EmbeddedIdentity, SanitizerPid, KvValue, Gated, ClaimWf;
    NoDiagnostic(tok);
    NoRoot(tok);
    NoSearchedRule(tok);
    NoHeadedRule(tok);
    NoCounter(tok);
    NoIdentity(tok);
  }

  lemma {:induction false} StarCore(tok: string)
    requires tok == WILDCARD
    ensures ShellCore(tok) == Some("*") && BareCounterEnd("*") == None
  {
    assert tok[1..2] == "*";
  }

  lemma {:induction false} NoIdentity(tok: string)
    requires tok == WILDCARD
    ensures EmbeddedIdentity(tok) == None
  {
    assert IdentityEnd(tok, 0) == None && IdentityEnd(tok, 1) == None && IdentityEnd(tok, 2) == None;
    hide IdentityEnd;
    assert IdentityPieces(tok, 3) == [];
    assert IdentityPieces(tok, 2) == [Kept([tok[2]])];
    assert IdentityPieces(tok, 1) == [Kept([tok[1]]), Kept([tok[2]])];
    assert IdentityPieces(tok, 0) == [Kept([tok[0]]), Kept([tok[1]]), Kept([tok[2]])];
  }

  lemma {:induction false} NoRoot(tok: string)
    requires tok == WILDCARD
    ensures EphemeralRoot(tok) == None
  {
    SliceIsAt(tok, 0, 3);
    assert tok[0..3] == tok;
    RunExact(tok, 0, NotSeparator, tok);
    var w := Push([], Component(tok, SepBefore(tok, 0), PathFirstComponent(tok) == Some(0)));
    hide PathFirstComponent;
    forall k | 0 <= k < |ROOTS|
      ensures !EndsWindow(ROOTS[k], w)
    {
      RootNamesWords(k);
      OneComponent(ROOTS[k], w);
    }
    LongestRootWins(w, 0, None);
  }

  lemma {:induction false} OneComponent(root: Root, w: seq<Component>)
    requires |w| == 1 && root.segments != [] && w[0].text != root.segments[0]
    ensures !EndsWindow(root, w)
  {
  }

  lemma {:induction false} RootNamesWords(k: nat)
    requires k < |ROOTS|
    ensures |ROOTS[k].segments| >= 1 && ROOTS[k].segments[0] != WILDCARD
  {
  }

  lemma {:induction false} NoDigitNoClaim(form: string, runs: seq<DeclaredRuns.Run>)
    requires DeclaredRuns.GoodRuns(runs) && forall i :: 0 <= i < |form| ==> !Digit(form[i])
    ensures DeclaredStep(form, runs) == form
  {
    hide DeclaredRuns.GoodRuns, DeclaredRuns.Claims, DeclaredRuns.Apart, DeclaredRuns.Replaced, DeclaredRuns.MaximalRun;
    DeclaredRuns.ClaimsSound(form, runs);
    NoneMaximal(form, DeclaredRuns.Claims(form, runs));
  }

  lemma {:induction false} NoneMaximal(form: string, claims: seq<DeclaredRuns.Claimed>)
    requires forall i :: 0 <= i < |form| ==> !Digit(form[i])
    requires forall c :: c in claims ==> DeclaredRuns.MaximalRun(form, c)
    ensures claims == []
  {
    if claims != [] {
      StartsWithDigit(form, claims[0]);
    }
  }

  lemma {:induction false} StartsWithDigit(form: string, c: DeclaredRuns.Claimed)
    requires DeclaredRuns.MaximalRun(form, c)
    ensures c.first < |form| && Digit(form[c.first])
  {
    assert form[c.first..c.last][0] == form[c.first];
  }

  /** A literal wildcard in the input is a param like any other: no rule claims it, and its own form is the
      wildcard. */
  lemma {:induction false} LiteralWildcardIsParam(prev: string, maskIps: bool, runs: seq<DeclaredRuns.Run>)
    requires DeclaredRuns.GoodRuns(runs)
    ensures UnitOf(WILDCARD, prev, maskIps, runs) == Param
  {
    var tok := WILDCARD;
    NoComposite(tok);
    assert !AllDigit(tok) && SegmentStep(tok) == tok;
    NoDigitNoClaim(tok, runs);
    AddressIsNoWildcardAt(tok);
    hide TryComposite, SegmentStep, DeclaredStep, DeclaredRuns.GoodRuns, Ipv4Token, UuidOrLongHash, ShelledNumeric;
  }

  lemma {:induction false} AddressIsNoWildcardAt(tok: string)
    requires tok == WILDCARD
    ensures !Ipv4Token(tok)
  {
    if Ipv4Token(tok) {
      AddressIsNoWildcard(tok);
    }
  }

  // ----- the line -----

  /** The units of the tokens, each seeing the token before it. */
  function UnitsOf(toks: seq<string>, prev: string, maskIps: bool, runs: seq<DeclaredRuns.Run>): (us: seq<Unit>)
    requires DeclaredRuns.GoodRuns(runs)
    ensures |us| == |toks|
    decreases |toks|
  {
    if toks == [] then [] else [UnitOf(toks[0], prev, maskIps, runs)] + UnitsOf(toks[1..], toks[0], maskIps, runs)
  }

  function TextsOf(us: seq<Unit>): (r: seq<string>)
    ensures |r| == |us| && forall i :: 0 <= i < |us| ==> r[i] == UnitText(us[i])
  {
    if us == [] then [] else [UnitText(us[0])] + TextsOf(us[1..])
  }

  /** The source tokens at the template tokens that are exactly the wildcard, in order. */
  function ParamsAt(toks: seq<string>, forms: seq<string>): seq<string>
    requires |toks| == |forms|
  {
    if toks == [] then [] else (if forms[0] == WILDCARD then [toks[0]] else []) + ParamsAt(toks[1..], forms[1..])
  }

  lemma {:induction false} UnitsAreTokens(toks: seq<string>, prev: string, maskIps: bool, runs: seq<DeclaredRuns.Run>)
    requires AllTokens(toks) && DeclaredRuns.GoodRuns(runs)
    ensures AllTokens(TextsOf(UnitsOf(toks, prev, maskIps, runs)))
    decreases |toks|
  {
    hide IsToken, UnitOf, UnitText, DeclaredRuns.GoodRuns;
    if toks != [] {
      UnitIsToken(toks[0], prev, maskIps, runs);
      UnitsAreTokens(toks[1..], toks[0], maskIps, runs);
    }
  }

  /** The state of the token loop. */
  ghost predicate Built(line: string, cursor: nat, prev: string, maskIps: bool, runs: seq<DeclaredRuns.Run>,
                        done: seq<string>, forms: seq<string>, params: seq<string>)
    requires DeclaredRuns.GoodRuns(runs)
  {
    && cursor <= |line| && |done| == |forms|
    && done + Tokens(line, cursor) == Tokens(line, 0)
    && forms + TextsOf(UnitsOf(Tokens(line, cursor), prev, maskIps, runs)) == TextsOf(UnitsOf(Tokens(line, 0), "", maskIps, runs))
    && params == ParamsAt(done, forms)
  }

  lemma {:induction false} ParamsSnoc(toks: seq<string>, forms: seq<string>, tok: string, form: string)
    requires |toks| == |forms|
    ensures ParamsAt(toks + [tok], forms + [form]) == ParamsAt(toks, forms) + (if form == WILDCARD then [tok] else [])
  {
    if toks == [] {
      assert toks + [tok] == [tok] && forms + [form] == [form] && [tok][1..] == [] && [form][1..] == [];
      assert ParamsAt([], []) == [];
    } else {
      assert (toks + [tok])[1..] == toks[1..] + [tok] && (forms + [form])[1..] == forms[1..] + [form];
      ParamsSnoc(toks[1..], forms[1..], tok, form);
    }
  }

  lemma {:induction false} BuiltStart(line: string, maskIps: bool, runs: seq<DeclaredRuns.Run>)
    requires DeclaredRuns.GoodRuns(runs)
    ensures Built(line, 0, "", maskIps, runs, [], [], [])
  {
    hide Tokens, UnitsOf, TextsOf;
    assert [] + Tokens(line, 0) == Tokens(line, 0);
    var texts := TextsOf(UnitsOf(Tokens(line, 0), "", maskIps, runs));
    assert [] + texts == texts;
  }

  lemma {:induction false} BuiltStep(line: string, cursor: nat, start: nat, end: nat, prev: string, maskIps: bool,
                                     runs: seq<DeclaredRuns.Run>, done: seq<string>, forms: seq<string>, params: seq<string>)
    requires DeclaredRuns.GoodRuns(runs) && Built(line, cursor, prev, maskIps, runs, done, forms, params)
    requires start == RunEnd(line, cursor, Space) < |line| && end == RunEnd(line, start, NoSpace)
    ensures var tok := line[start..end];
      var unit := UnitOf(tok, prev, maskIps, runs);
      cursor < end && IsToken(tok) &&
      Built(line, end, tok, maskIps, runs, done + [tok], forms + [UnitText(unit)], params + (if unit.Param? then [tok] else []))
  {
    var tok := line[start..end];
    hide DeclaredRuns.GoodRuns, UnitOf, UnitText, IsToken, RunEnd, Tokens, UnitsOf, TextsOf;
    TokensStep(line, cursor, start, end);
    TokensAreTokens(line, cursor, 0);
    UnitIsToken(tok, prev, maskIps, runs);
    var unit, rest := UnitOf(tok, prev, maskIps, runs), Tokens(line, end);
    TextsStep(tok, rest, prev, maskIps, runs);
    ParamsSnoc(done, forms, tok, UnitText(unit));
    Shift(done, tok, rest);
    Shift(forms, UnitText(unit), TextsOf(UnitsOf(rest, tok, maskIps, runs)));
  }

  lemma {:induction false} TokensStep(line: string, cursor: nat, start: nat, end: nat)
    requires cursor <= |line| && start == RunEnd(line, cursor, Space) < |line| && end == RunEnd(line, start, NoSpace)
    ensures cursor <= start < end && Tokens(line, cursor) == [line[start..end]] + Tokens(line, end)
  {
  }

  lemma {:induction false} TextsStep(tok: string, rest: seq<string>, prev: string, maskIps: bool, runs: seq<DeclaredRuns.Run>)
    requires DeclaredRuns.GoodRuns(runs)
    ensures TextsOf(UnitsOf([tok] + rest, prev, maskIps, runs)) ==
            [UnitText(UnitOf(tok, prev, maskIps, runs))] + TextsOf(UnitsOf(rest, tok, maskIps, runs))
  {
    hide DeclaredRuns.GoodRuns, UnitOf, UnitText;
    assert ([tok] + rest)[1..] == rest;
    var unit, more := UnitOf(tok, prev, maskIps, runs), UnitsOf(rest, tok, maskIps, runs);
    assert ([unit] + more)[1..] == more;
  }

  lemma {:induction false} Shift(a: seq<string>, x: string, b: seq<string>)
    ensures (a + [x]) + b == a + ([x] + b)
  {
  }

  lemma {:induction false} BuiltEnds(line: string, cursor: nat, prev: string, maskIps: bool, runs: seq<DeclaredRuns.Run>,
                                     done: seq<string>, forms: seq<string>, params: seq<string>)
    requires DeclaredRuns.GoodRuns(runs) && Built(line, cursor, prev, maskIps, runs, done, forms, params)
    requires RunEnd(line, cursor, Space) == |line|
    ensures done == Tokens(line, 0) && forms == TextsOf(UnitsOf(Tokens(line, 0), "", maskIps, runs))
    ensures params == ParamsAt(Tokens(line, 0), forms)
  {
    hide DeclaredRuns.GoodRuns, UnitOf, RunEnd;
    assert Tokens(line, cursor) == [];
    assert done + [] == done && forms + [] == forms;
  }

  lemma {:induction false} JoinedSnoc(units: seq<string>, u: string)
    ensures Joined(units + [u]) == if units == [] then u else Joined(units) + " " + u
  {
    assert (units + [u])[..|units|] == units;
  }

  /** `stateless_template`: one template token per token of the line; the params are exactly the tokens
      whose template token is the wildcard, in order. */
  method StatelessTemplate(content: string, maskIps: bool, runs: seq<DeclaredRuns.Run>) returns (tmpl: string, params: seq<string>)
    requires DeclaredRuns.GoodRuns(runs)
    ensures var toks := Tokens(JsonDocument.Canonical(content), 0);
      && |Tokens(tmpl, 0)| == |toks|
      && Tokens(tmpl, 0) == TextsOf(UnitsOf(toks, "", maskIps, runs))
      && params == ParamsAt(toks, Tokens(tmpl, 0))
  {
    hide DeclaredRuns.GoodRuns, Built, UnitOf, UnitText, IsToken, RunEnd, Tokens, UnitsOf, TextsOf, Joined, Every;
    var changed, reordered := JsonEmit.JsonMemberOrder(content);
    var line := if changed then reordered else content;
    tmpl, params := "", [];
    var prev, first := "", true;
    ghost var done: seq<string>, forms: seq<string> := [], [];
    BuiltStart(line, maskIps, runs);
    EmptyJoin();
    var cursor := SkipRun(line, 0, Space);
    ghost var from := 0;
    while cursor < |line|
      invariant from <= cursor <= |line| && cursor == RunEnd(line, from, Space)
      invariant Built(line, from, prev, maskIps, runs, done, forms, params)
      invariant tmpl == Joined(forms) && first == (forms == [])
      decreases |line| - from
    {
      if !first {
        tmpl := tmpl + " ";
      }
      first := false;
      var end := SkipRun(line, cursor, NoSpace);
      var tok := line[cursor..end];
      var unit := MaskToken(tok, prev, maskIps, runs);
      BuiltStep(line, from, cursor, end, prev, maskIps, runs, done, forms, params);
      JoinedSnoc(forms, UnitText(unit));
      tmpl := tmpl + UnitText(unit);
      if unit.Param? {
        params := params + [tok];
      } else {
        assert params + [] == params;
      }
      done, forms := done + [tok], forms + [UnitText(unit)];
      prev := tok;
      from := end;
      cursor := SkipRun(line, end, Space);
    }
    BuiltEnds(line, from, prev, maskIps, runs, done, forms, params);
    AllLineTokens(line);
    UnitsAreTokens(Tokens(line, 0), "", maskIps, runs);
    TokensOfJoined(forms);
  }

  lemma {:induction false} EmptyJoin()
    ensures Joined([]) == ""
  {
  }

  lemma {:induction false} AllLineTokens(line: string)
    ensures AllTokens(Tokens(line, 0))
  {
    hide Tokens, IsToken;
    forall k | 0 <= k < |Tokens(line, 0)|
      ensures IsToken(Tokens(line, 0)[k])
    {
      TokensAreTokens(line, 0, k);
    }
  }

  /** How many template tokens are the wildcard. */
  function Wildcards(forms: seq<string>): nat {
    if forms == [] then 0 else (if forms[0] == WILDCARD then 1 else 0) + Wildcards(forms[1..])
  }

  /** Param `i` is the source token at the `i`-th template token that is exactly the wildcard, counted from
      the front, and there is one param for each of them. */
  lemma {:induction false} ParamAt(toks: seq<string>, forms: seq<string>, k: nat)
    requires |toks| == |forms|
    ensures |ParamsAt(toks, forms)| == Wildcards(forms)
    ensures k < |toks| && forms[k] == WILDCARD ==>
      Wildcards(forms[..k]) < Wildcards(forms) && ParamsAt(toks, forms)[Wildcards(forms[..k])] == toks[k]
    decreases |toks|
  {
    if toks != [] {
      ParamAt(toks[1..], forms[1..], if 0 < k then k - 1 else 0);
      if 0 < k < |toks| {
        WildcardsPrefix(forms, k);
      }
    }
  }

  lemma {:induction false} WildcardsPrefix(forms: seq<string>, k: nat)
    requires 0 < k <= |forms|
    ensures Wildcards(forms[..k]) == (if forms[0] == WILDCARD then 1 else 0) + Wildcards(forms[1..][..k - 1])
  {
    assert forms[..k][1..] == forms[1..][..k - 1];
  }
}
