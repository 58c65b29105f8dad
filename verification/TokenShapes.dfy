/**
 What the stateless masker (core/src/mask/mask.cpp) does with a token, told from the token's bytes alone:
 which tokens are params, which are kept as they are, and on what the answer turns.
 */
module TokenShapes {
  import opened Wrappers
  import opened Text
  import opened MaskPieces
  import opened MaskRules
  import opened MaskPaths
  import opened Masker
  import DeclaredRuns
  import Intent

  // ----- when no composite claims -----

  predicate Without(tok: string, bytes: string) {
    forall i :: 0 <= i < |tok| ==> tok[i] !in bytes
  }

  predicate Letterless(tok: string) {
    forall i :: 0 <= i < |tok| ==> !Alpha(tok[i])
  }

  /** No UUID, no compact instant and no long hexadecimal run anywhere in the token. */
  predicate IdentityFree(tok: string) {
    forall i, j :: 0 <= i < j <= |tok| ==> !IdentityStands(tok, i, j)
  }

  lemma {:induction false} FirstOfNone(s: string, c: char, from: nat)
    requires from <= |s| && Without(s, [c])
    ensures FirstOf(s, c, from) == None
  {
  }

  lemma {:induction false} NoDiagnosticWithoutColon(tok: string)
    requires Without(tok, ":")
    ensures DiagnosticComposite(tok) == None
  {
    hide SegmentWalk;
  }

  lemma {:induction false} NoDiagnosticWithoutLetters(tok: string)
    requires Letterless(tok) && Without(tok, "\\")
    ensures DiagnosticComposite(tok) == None
  {
    hide DiagnosticComposite, HasColonDigit, Masks, SegmentsShown;
    LetterlessWalk(tok, 0);
    SegmentsExactly(tok);
  }

  lemma {:induction false} LetterlessWalk(tok: string, start: nat)
    requires Letterless(tok) && start <= |tok|
    ensures RootFree(tok, start) && !HasAnchor(tok, start)
    decreases |tok| - start
  {
    hide NoRootName, LetterLed;
    var end := RunEnd(tok, start, NotSegmentEnd);
    LetterlessSegment(tok, start, end);
    if end < |tok| {
      LetterlessWalk(tok, end + 1);
    }
  }

  lemma {:induction false} LetterlessSegment(tok: string, start: nat, end: nat)
    requires Letterless(tok) && start <= end <= |tok|
    ensures NoRootName(tok[start..end]) && !LetterLed(tok[start..end])
  {
    var seg := tok[start..end];
    assert forall i :: 0 <= i < |seg| ==> seg[i] == tok[start + i];
    forall k | 0 <= k < |ROOTS|
      ensures ROOTS[k].segments == [] || ROOTS[k].segments[|ROOTS[k].segments| - 1] != seg
    {
      RootNamesEndInLetter(k);
    }
    var b := CoreOf(seg);
    assert b.lead < b.trail ==> seg[b.lead..b.trail][0] == seg[b.lead];
  }

  lemma {:induction false} RootNamesEndInLetter(k: nat)
    requires k < |ROOTS|
    ensures var names := ROOTS[k].segments; names != [] && names[|names| - 1] != "" && Alpha(names[|names| - 1][0])
  {
  }

  lemma {:induction false} NoEphemeralWithoutSeparator(tok: string)
    requires Without(tok, "/\\")
    ensures EphemeralRoot(tok) == None
  {
    hide RootEndingAt, PathFirstComponent;
  }

  lemma {:induction false} NoReferenceWithoutSlash(tok: string)
    requires Without(tok, "/")
    ensures VersionedRef(tok) == None
  {
  }

  lemma {:induction false} NoBracketRules(tok: string)
    requires Without(tok, "[")
    ensures BracketTimestamp(tok) == None && BracketIndex(tok) == None
  {
    FirstOfNone(tok, '[', 0);
  }

  lemma {:induction false} NoCounterWithoutHash(tok: string)
    requires Without(tok, "#")
    ensures HashCounter(tok) == None
  {
    hide RunEnd, NoAlnum, ClaimWf;
    if ShellCore(tok).Some? {
      var core := ShellCore(tok).value;
      assert core != "" ==> core[0] == tok[1];
    }
  }

  lemma {:induction false} NoTagWithoutEquals(tok: string)
    requires Without(tok, "=")
    ensures SanitizerPid(tok) == None && KvValue(tok) == None
  {
    hide MaskedValue;
    FirstOfNone(tok, '=', 0);
    assert |tok| > 2 ==> tok[..2][0] == tok[0];
  }

  lemma {:induction false} IdentityEndStands(tok: string, pos: nat)
    requires pos < |tok| && IdentityEnd(tok, pos).Some?
    ensures IdentityStands(tok, pos, IdentityEnd(tok, pos).value)
  {
    hide Identity;
  }

  lemma {:induction false} IdentityFreePieces(tok: string, pos: nat)
    requires pos <= |tok| && IdentityFree(tok)
    ensures !Masks(IdentityPieces(tok, pos))
    decreases |tok| - pos
  {
    hide IdentityEnd, IdentityStands, Identity, SourceOf;
    if pos < |tok| {
      if IdentityEnd(tok, pos).Some? {
        IdentityEndStands(tok, pos);
        assert false;
      }
      IdentityFreePieces(tok, pos + 1);
      ConsPiece(Kept([tok[pos]]), IdentityPieces(tok, pos + 1), Identity);
    }
  }

  lemma {:induction false} NoEmbeddedIdentity(tok: string)
    requires IdentityFree(tok)
    ensures EmbeddedIdentity(tok) == None
  {
    hide IdentityFree, Masks;
    IdentityFreePieces(tok, 0);
  }

  /** None of the bytes a composite starts from. */
  predicate Quiet(tok: string) {
    Without(tok, "/\\#=") && MarkerPrefix(tok) == 0 && IdentityFree(tok) && (Without(tok, ":") || Letterless(tok))
  }

  lemma {:induction false} QuietUnclaimed(tok: string)
    requires Quiet(tok) && BracketTimestamp(tok) == None && BracketIndex(tok) == None
    ensures TryComposite(tok) == None
  {
    hide DiagnosticComposite, EphemeralRoot, VersionedRef, BracketTimestamp, BracketIndex, HashCounter, EmbeddedIdentity,
      SanitizerPid, KvValue, Gated, ClaimWf, IdentityFree;
    if Without(tok, ":") {
      NoDiagnosticWithoutColon(tok);
    } else {
      NoDiagnosticWithoutLetters(tok);
    }
    NoEphemeralWithoutSeparator(tok);
    NoReferenceWithoutSlash(tok);
    NoCounterWithoutHash(tok);
    NoEmbeddedIdentity(tok);
    NoTagWithoutEquals(tok);
  }

  // ----- addresses -----

  /** One to three digits that no digit follows. */
  predicate OctetRun(s: string, i: nat, j: nat) {
    i < j <= |s| && j - i <= 3 && AllDigits(s[i..j]) && (j < |s| ==> !Digit(s[j]))
  }

  predicate TailFrom(s: string, q: nat) {
    q <= |s| && |s| - q <= 2 && forall i :: q <= i < |s| ==> s[i] in "])}>\"',;:."
  }

  /** Four dotted octets ending at the given positions, after at most one opening byte, with at most a port and
      two closing bytes behind them, the port ending at `q`. */
  predicate AddressCut(s: string, e1: nat, e2: nat, e3: nat, e4: nat, q: nat) {
    && s != "" && OctetRun(s, if s[0] in "[({<\"'" then 1 else 0, e1)
    && e1 < |s| && s[e1] == '.' && OctetRun(s, e1 + 1, e2)
    && e2 < |s| && s[e2] == '.' && OctetRun(s, e2 + 1, e3)
    && e3 < |s| && s[e3] == '.' && OctetRun(s, e3 + 1, e4)
    && e4 <= q && (q == e4 || (q <= |s| && s[e4] == ':' && AllDigits(s[e4 + 1..q]))) && TailFrom(s, q)
  }

  ghost predicate Address(s: string) {
    exists e1, e2, e3, e4, q :: AddressCut(s, e1, e2, e3, e4, q)
  }

  lemma {:induction false} OctetRunEnd(s: string, i: nat, j: nat)
    requires OctetRun(s, i, j)
    ensures OctetEnd(s, i) == Some(j)
  {
    var run := s[i..j];
    assert run[0] == s[i] && (|run| > 1 ==> run[1] == s[i + 1]) && (|run| > 2 ==> run[2] == s[i + 2]);
  }

  lemma {:induction false} OctetEndRun(s: string, i: nat)
    requires i <= |s| && OctetEnd(s, i).Some?
    ensures var j := OctetEnd(s, i).value; i < j <= |s| && j - i <= 3 && AllDigits(s[i..j]) && (j - i < 3 && j < |s| ==> !Digit(s[j]))
  {
  }

  lemma {:induction false} TailClass(c: char)
    ensures ShellTail(c) <==> c in "])}>\"',;:."
    ensures ShellTail(c) ==> !Digit(c)
  {
  }

  lemma {:induction false} TailIs(s: string, q: nat)
    requires q <= |s|
    ensures TailFrom(s, q) <==> |s| - q <= 2 && Every(ShellTail, s[q..])
  {
    hide ShellTail;
    forall i | q <= i < |s|
      ensures ShellTail(s[q..][i - q]) <==> s[i] in "])}>\"',;:."
    {
      TailClass(s[i]);
    }
  }

  lemma {:induction false} AddressIsToken(s: string, e1: nat, e2: nat, e3: nat, e4: nat, q: nat)
    requires AddressCut(s, e1, e2, e3, e4, q)
    ensures Ipv4Token(s)
  {
    hide OctetRun, OctetEnd, TailFrom, Every, RunEnd, ShellTail;
    OctetRunEnd(s, if s[0] in "[({<\"'" then 1 else 0, e1);
    OctetRunEnd(s, e1 + 1, e2);
    OctetRunEnd(s, e2 + 1, e3);
    OctetRunEnd(s, e3 + 1, e4);
    FourOctets(s, if WrapperOpen(s[0]) then 1 else 0, e1, e2, e3, e4);
    PortEnd(s, e4, q);
  }

  lemma {:induction false} FourOctets(s: string, i: nat, e1: nat, e2: nat, e3: nat, e4: nat)
    requires i <= |s| && OctetEnd(s, i) == Some(e1) && e1 < |s| && s[e1] == '.'
    requires OctetEnd(s, e1 + 1) == Some(e2) && e2 < |s| && s[e2] == '.'
    requires OctetEnd(s, e2 + 1) == Some(e3) && e3 < |s| && s[e3] == '.' && OctetEnd(s, e3 + 1) == Some(e4)
    ensures OctetsEnd(s, i, 4) == Some(e4)
  {
    hide OctetEnd;
    assert OctetsEnd(s, e3 + 1, 1) == Some(e4);
    assert OctetsEnd(s, e2 + 1, 2) == Some(e4);
    assert OctetsEnd(s, e1 + 1, 3) == Some(e4);
  }

  /** Where the reader takes the port to end, the tail is as short as where it was cut. */
  lemma {:induction false} PortEnd(s: string, e4: nat, q: nat)
    requires e4 <= q <= |s| && (q == e4 || (s[e4] == ':' && AllDigits(s[e4 + 1..q]))) && TailFrom(s, q)
    ensures var pos := if e4 < |s| && s[e4] == ':' then RunEnd(s, e4 + 1, Digit) else e4;
      |s| - pos <= 2 && Every(ShellTail, s[pos..])
  {
    hide ShellTail, Every, RunEnd;
    forall i | q <= i < |s|
      ensures !Digit(s[i])
    {
      TailClass(s[i]);
    }
    if e4 < |s| && s[e4] == ':' {
      var end := if q == e4 then e4 + 1 else q;
      DigitsOnly(s, e4 + 1, end);
      RunBetween(s, e4 + 1, end, Digit);
      TailIs(s, end);
    } else {
      TailIs(s, q);
    }
  }

  lemma {:induction false} DigitsOnly(s: string, i: nat, j: nat)
    requires i <= j <= |s|
    ensures AllDigits(s[i..j]) <==> Every(Digit, s[i..j])
    ensures i == j ==> AllDigits(s[i..j])
  {
  }

  lemma {:induction false} TokenIsAddress(s: string)
    requires Ipv4Token(s)
    ensures Address(s)
  {
    hide OctetEnd, Every, RunEnd, ShellTail, OctetRun, TailFrom;
    var i: nat := if WrapperOpen(s[0]) then 1 else 0;
    var e4 := OctetsEnd(s, i, 4).value;
    var e1, e2, e3 := OctetsCut(s, i);
    var q := if e4 < |s| && s[e4] == ':' then RunEnd(s, e4 + 1, Digit) else e4;
    TailIs(s, q);
    LastOctet(s, e3 + 1, e4, q);
    assert AddressCut(s, e1, e2, e3, e4, q);
  }

  lemma {:induction false} OctetsCut(s: string, i: nat) returns (e1: nat, e2: nat, e3: nat)
    requires i <= |s| && OctetsEnd(s, i, 4).Some?
    ensures OctetRun(s, i, e1) && e1 < |s| && s[e1] == '.' && OctetRun(s, e1 + 1, e2) && e2 < |s| && s[e2] == '.'
    ensures OctetRun(s, e2 + 1, e3) && e3 < |s| && s[e3] == '.' && OctetEnd(s, e3 + 1) == OctetsEnd(s, i, 4)
  {
    hide OctetEnd;
    e1 := OctetEnd(s, i).value;
    assert OctetsEnd(s, i, 4) == OctetsEnd(s, e1 + 1, 3);
    e2 := OctetEnd(s, e1 + 1).value;
    assert OctetsEnd(s, e1 + 1, 3) == OctetsEnd(s, e2 + 1, 2);
    e3 := OctetEnd(s, e2 + 1).value;
    assert OctetsEnd(s, e2 + 1, 2) == OctetsEnd(s, e3 + 1, 1);
    OctetEndRun(s, i);
    OctetEndRun(s, e1 + 1);
    OctetEndRun(s, e2 + 1);
  }

  lemma {:induction false} LastOctet(s: string, i: nat, e4: nat, q: nat)
    requires i <= |s| && OctetEnd(s, i) == Some(e4) && q == (if e4 < |s| && s[e4] == ':' then RunEnd(s, e4 + 1, Digit) else e4)
    requires TailFrom(s, q)
    ensures OctetRun(s, i, e4) && e4 <= q && (q == e4 || (s[e4] == ':' && AllDigits(s[e4 + 1..q])))
  {
    hide RunEnd, Every;
    OctetEndRun(s, i);
    if e4 < |s| && s[e4] == ':' {
      DigitsOnly(s, e4 + 1, q);
    } else if e4 < |s| {
      TailClass(s[e4]);
    }
  }

  /** The address test takes exactly the addresses. */
  lemma {:induction false} AddressExactly(s: string)
    ensures Ipv4Token(s) <==> Address(s)
  {
    hide Ipv4Token, AddressCut;
    if Ipv4Token(s) {
      TokenIsAddress(s);
    }
    if Address(s) {
      var e1, e2, e3, e4, q :| AddressCut(s, e1, e2, e3, e4, q);
      AddressIsToken(s, e1, e2, e3, e4, q);
    }
  }

  // ----- tokens by their shape -----

  const SEPARATORS := ":/#-=[({<\"'])}>"

  lemma {:induction false} BareIsGated(tok: string)
    requires tok != "" && Without(tok, SEPARATORS) && (tok[0] != '$' || |tok| == 1)
    ensures TryComposite(tok) == None
  {
    hide ClaimWf;
    forall i | 0 <= i < |tok|
      ensures !SeparatorByte(tok[i])
    {
      SeparatorClass(tok[i]);
    }
    assert MarkerPrefix(tok) == 0;
  }

  lemma {:induction false} SeparatorClass(c: char)
    ensures SeparatorByte(c) ==> c in SEPARATORS
  {
  }

  predicate UpperOf(c: char, lower: char) {
    c == lower || ('a' <= lower <= 'z' && c as int == lower as int - 32)
  }

  /** The word in any mix of cases. */
  predicate SpelledAs(text: string, word: string) {
    |text| == |word| && forall i :: 0 <= i < |text| ==> UpperOf(text[i], word[i])
  }

  /** One to three digits behind a status word. */
  predicate ShortStatus(tok: string, prev: string) {
    1 <= |tok| <= 3 && AllDigits(tok) && (SpelledAs(prev, "code") || SpelledAs(prev, "status") || SpelledAs(prev, "exit") || SpelledAs(prev, "signal"))
  }

  lemma {:induction false} SpelledIs(text: string, word: string)
    requires forall i :: 0 <= i < |word| ==> 'a' <= word[i] <= 'z'
    ensures EqualsLower(text, word) <==> SpelledAs(text, word)
  {
  }

  lemma {:induction false} ShortStatusIs(tok: string, prev: string)
    ensures ShortStatus(tok, prev) <==> AllDigit(tok) && |tok| <= MAX_STATUS_DIGITS && StatusKeyword(prev)
  {
    hide EqualsLower, SpelledAs;
    SpelledIs(prev, "code");
    SpelledIs(prev, "status");
    SpelledIs(prev, "exit");
    SpelledIs(prev, "signal");
  }

  predicate Hex(c: char) {
    c in "0123456789abcdefABCDEF"
  }

  lemma {:induction false} HexIs(c: char)
    ensures Hex(c) <==> HexChar(c)
  {
  }

  /** Sixteen or more hexadecimal digits and nothing else. */
  predicate LongHex(tok: string) {
    |tok| >= 16 && forall i :: 0 <= i < |tok| ==> Hex(tok[i])
  }

  lemma {:induction false} LongHexIs(tok: string)
    ensures LongHex(tok) <==> |tok| >= MIN_HASH && Every(HexChar, tok)
  {
    hide HexChar, Hex;
    forall i | 0 <= i < |tok|
      ensures Hex(tok[i]) <==> HexChar(tok[i])
    {
      HexIs(tok[i]);
    }
  }

  predicate SignedDigit(tok: string) {
    (tok != "" && Digit(tok[0])) || (|tok| > 1 && (tok[0] == '+' || tok[0] == '-') && Digit(tok[1]))
  }

  /** A token without a separator byte and without a currency mark, whatever stands before it: a short number
      behind a status word is kept, a long hexadecimal run is a param, an address is one exactly with the
      switch on, every other token led by a digit or a sign and a digit is one, and all the rest is kept but
      for the numbers a declared run claims in it. */
  lemma {:induction false} BareTokenExactly(tok: string, prev: string, maskIps: bool, runs: seq<DeclaredRuns.Run>)
    requires tok != "" && Without(tok, SEPARATORS) && (tok[0] != '$' || |tok| == 1) && DeclaredRuns.GoodRuns(runs)
    ensures UnitOf(tok, prev, maskIps, runs) ==
      if ShortStatus(tok, prev) then Literal(tok)
      else if LongHex(tok) then Param
      else if Address(tok) then (if maskIps then Param else Literal(tok))
      else if SignedDigit(tok) then Param
      else Literal(DeclaredStep(tok, runs))
  {
    hide TryComposite, Ipv4Token, Address, ShortStatus, LongHex, AllDigit, StatusKeyword, SegmentStep, DeclaredStep, DeclaredRuns.GoodRuns, Every;
    BareIsGated(tok);
    ShortStatusIs(tok, prev);
    LongHexIs(tok);
    AddressExactly(tok);
    BareIsNoUuid(tok);
    BareIsNoShell(tok, prev);
    BareSteps(tok, runs);
  }

  lemma {:induction false} BareIsNoUuid(tok: string)
    requires Without(tok, SEPARATORS)
    ensures !(|tok| == UUID && UuidAt(tok, 0))
  {
    if |tok| == UUID {
      assert tok[8] != '-';
      assert !UuidByte(8, tok[0 + 8]);
    }
  }

  lemma {:induction false} BareIsNoShell(tok: string, prev: string)
    requires tok != "" && Without(tok, SEPARATORS)
    ensures !ShelledNumeric(tok, prev)
  {
    SeparatorClass(tok[0]);
  }

  lemma {:induction false} BareSteps(tok: string, runs: seq<DeclaredRuns.Run>)
    requires tok != "" && Without(tok, SEPARATORS) && DeclaredRuns.GoodRuns(runs)
    ensures SegmentStep(tok) == tok && (!Digit(tok[0]) ==> DeclaredStep(tok, runs) != WILDCARD)
  {
    hide DeclaredRuns.GoodRuns, DeclaredRuns.Claims, DeclaredStep;
    assert '=' !in tok;
    if !Digit(tok[0]) {
      DeclaredKeepsHead(tok, runs);
      assert tok[0] != '<';
    }
  }

  /** A declared run starts with a digit, so a first byte that is none stays. */
  lemma {:induction false} DeclaredKeepsHead(form: string, runs: seq<DeclaredRuns.Run>)
    requires form != "" && !Digit(form[0]) && DeclaredRuns.GoodRuns(runs)
    ensures DeclaredStep(form, runs) != "" && DeclaredStep(form, runs)[0] == form[0]
  {
    hide DeclaredRuns.GoodRuns, DeclaredRuns.Claims, DeclaredRuns.Apart;
    DeclaredRuns.ClaimsSound(form, runs);
    var claims := DeclaredRuns.Claims(form, runs);
    if runs != [] && claims != [] {
      StartsWithDigit(form, claims[0]);
      DeclaredRuns.ApartPlaced(claims, 0, |form|);
    }
  }

  /** Letters alone are kept, unless they are sixteen or more hexadecimal digits. */
  lemma {:induction false} WordIsKept(tok: string, prev: string, maskIps: bool, runs: seq<DeclaredRuns.Run>)
    requires tok != "" && DeclaredRuns.GoodRuns(runs) && forall i :: 0 <= i < |tok| ==> 'a' <= tok[i] <= 'z' || 'A' <= tok[i] <= 'Z'
    ensures UnitOf(tok, prev, maskIps, runs) == if LongHex(tok) then Param else Literal(tok)
  {
    hide UnitOf, LongHex, DeclaredRuns.GoodRuns, DeclaredStep, AddressCut;
    BareTokenExactly(tok, prev, maskIps, runs);
    NoDigitNoClaim(tok, runs);
    WordIsNoAddress(tok);
    assert !ShortStatus(tok, prev);
  }

  lemma {:induction false} WordIsNoAddress(tok: string)
    requires forall i :: 0 <= i < |tok| ==> 'a' <= tok[i] <= 'z' || 'A' <= tok[i] <= 'Z'
    ensures !Address(tok)
  {
    forall e1, e2, e3, e4, q
      ensures !AddressCut(tok, e1, e2, e3, e4, q)
    {
    }
  }

  /** The template of a wildcard is that wildcard. */
  lemma {:induction false} WildcardStays(runs: seq<DeclaredRuns.Run>)
    requires DeclaredRuns.GoodRuns(runs)
    ensures Steps(WILDCARD, runs) == WILDCARD
  {
    hide DeclaredStep, DeclaredRuns.GoodRuns;
    assert SegmentStep(WILDCARD) == WILDCARD;
    NoDigitNoClaim(WILDCARD, runs);
  }

  /** A token that is one identity, a UUID, a compact instant or a long hexadecimal run, is a param. */
  lemma {:induction false} IdentityIsParam(tok: string, prev: string, maskIps: bool, runs: seq<DeclaredRuns.Run>)
    requires tok != "" && IdentityStands(tok, 0, |tok|) && DeclaredRuns.GoodRuns(runs)
    ensures UnitOf(tok, prev, maskIps, runs) == Param
  {
    hide UnitOf, DeclaredRuns.GoodRuns, UuidAt, InstantAt, LongHex, Every;
    if (|tok| == UUID && UuidAt(tok, 0)) || (|tok| == INSTANT && InstantAt(tok, 0)) {
      DashedIdentityIsParam(tok, prev, maskIps, runs);
    } else {
      assert tok[0..|tok|] == tok;
      LongHexIs(tok);
      LongHexIsBare(tok);
      BareTokenExactly(tok, prev, maskIps, runs);
    }
  }

  lemma {:induction false} LongHexIsBare(tok: string)
    requires LongHex(tok)
    ensures tok != "" && Without(tok, SEPARATORS) && tok[0] != '$'
  {
    hide Hex;
    forall i | 0 <= i < |tok|
      ensures tok[i] !in SEPARATORS && tok[i] != '$'
    {
      HexIsNoSeparator(tok[i]);
    }
  }

  lemma {:induction false} HexIsNoSeparator(c: char)
    requires Hex(c)
    ensures c !in SEPARATORS && c != '$'
  {
    hide Hex;
    HexIs(c);
  }

  lemma {:induction false} DashedIdentityIsParam(tok: string, prev: string, maskIps: bool, runs: seq<DeclaredRuns.Run>)
    requires (|tok| == UUID && UuidAt(tok, 0)) || (|tok| == INSTANT && InstantAt(tok, 0))
    requires DeclaredRuns.GoodRuns(runs)
    ensures UnitOf(tok, prev, maskIps, runs) == Param
  {
    hide DeclaredRuns.GoodRuns, Steps, TryComposite, UuidAt, InstantAt;
    WildcardStays(runs);
    DashedIdentityClaimed(tok);
    OnePiece(Masked(tok));
  }

  lemma {:induction false} DashedIdentityClaimed(tok: string)
    requires (|tok| == UUID && UuidAt(tok, 0)) || (|tok| == INSTANT && InstantAt(tok, 0))
    ensures TryComposite(tok) == Some([Masked(tok)]) && !AllDigits(tok)
  {
    hide DiagnosticComposite, EphemeralRoot, VersionedRef, BracketTimestamp, BracketIndex, HashCounter, EmbeddedIdentity,
      SanitizerPid, KvValue, ClaimWf, IdentityStands, UuidAt, InstantAt, Masks;
    DashedIdentityBytes(tok);
    assert SeparatorByte(tok[if |tok| == UUID then 8 else 4]);
    NoDiagnosticWithoutColon(tok);
    NoEphemeralWithoutSeparator(tok);
    NoReferenceWithoutSlash(tok);
    NoBracketRules(tok);
    NoCounterWithoutHash(tok);
    assert MarkerNumber(tok) == None;
    IdentityStandsDashed(tok);
    IdentityAlone(tok);
  }

  lemma {:induction false} IdentityStandsDashed(tok: string)
    requires (|tok| == UUID && UuidAt(tok, 0)) || (|tok| == INSTANT && InstantAt(tok, 0))
    ensures IdentityStands(tok, 0, |tok|)
  {
  }

  lemma {:induction false} DashedIdentityBytes(tok: string)
    requires (|tok| == UUID && UuidAt(tok, 0)) || (|tok| == INSTANT && InstantAt(tok, 0))
    ensures Without(tok, ":") && Without(tok, "/\\") && Without(tok, "/") && Without(tok, "[") && Without(tok, "#")
    ensures tok[if |tok| == UUID then 8 else 4] == '-' && MarkerPrefix(tok) == 0
  {
    forall i | 0 <= i < |tok|
      ensures tok[i] != ':' && tok[i] != '/' && tok[i] != '\\' && tok[i] != '[' && tok[i] != '#' && tok[i] != '$'
    {
      if |tok| == UUID && UuidAt(tok, 0) {
        assert UuidByte(i - 0, tok[i]);
      } else {
        assert InstantByte(i - 0, tok[i]);
      }
    }
    if |tok| == UUID && UuidAt(tok, 0) {
      assert UuidByte(8 - 0, tok[8]);
    } else {
      assert InstantByte(4 - 0, tok[4]);
    }
    MarkerIsDollar(tok);
  }

  lemma {:induction false} MarkerIsDollar(tok: string)
    requires tok != "" && tok[0] != '$'
    ensures MarkerPrefix(tok) == 0
  {
  }

  /** Without a dash past its first byte and without a long run of hexadecimal digits a token holds no
      identity. */
  lemma {:induction false} NoDashNoIdentity(tok: string)
    requires forall i :: 1 <= i < |tok| ==> tok[i] != '-'
    requires forall i, j :: HexRun(tok, i, j) ==> j - i < 16
    ensures IdentityFree(tok)
  {
    hide Every;
    forall i, j | 0 <= i < j <= |tok|
      ensures !IdentityStands(tok, i, j)
    {
      if j - i == UUID {
        assert tok[i + 8] != '-';
        assert !UuidByte(8, tok[i + 8]);
      }
      if j - i == INSTANT {
        assert !InstantByte(4, tok[i + 4]);
      }
      assert !HexRun(tok, i, j) || j - i < 16;
    }
  }

  /** Hexadecimal digits from `i` to `j`. */
  predicate HexRun(tok: string, i: int, j: int) {
    0 <= i < j <= |tok| && Every(HexChar, tok[i..j])
  }

  lemma {:induction false} HexRunAt(tok: string, i: nat, j: nat, k: nat)
    requires HexRun(tok, i, j) && i <= k < j
    ensures HexChar(tok[k])
  {
    assert tok[i..j][k - i] == tok[k];
  }

  /** A minus and a digit without a separator behind them: a param, unless a long hexadecimal run stands in the
      token, whose mask alone is then taken. */
  lemma {:induction false} NegativeNumber(tok: string, prev: string, maskIps: bool, runs: seq<DeclaredRuns.Run>)
    requires |tok| > 1 && tok[0] == '-' && Digit(tok[1]) && Without(tok[1..], SEPARATORS) && Without(tok, "\\")
    requires DeclaredRuns.GoodRuns(runs)
    ensures UnitOf(tok, prev, maskIps, runs).Param? <==> forall i, j :: HexRun(tok, i, j) ==> j - i < 16
  {
    hide DeclaredRuns.GoodRuns, TryComposite, Steps, Ipv4Token, HexRun, StatusKeyword;
    forall i | 1 <= i < |tok|
      ensures tok[i] !in SEPARATORS
    {
      assert tok[i] == tok[1..][i - 1];
    }
    assert tok[0] !in SEPARATORS || tok[0] == '-';
    NegativeIsNoAddress(tok);
    if forall i, j :: HexRun(tok, i, j) ==> j - i < 16 {
      NoDashNoIdentity(tok);
      NoBracketRules(tok);
      QuietUnclaimed(tok);
    } else {
      NegativeIdentity(tok, runs);
    }
  }

  lemma {:induction false} NegativeIsNoAddress(tok: string)
    requires tok != "" && tok[0] == '-'
    ensures !Ipv4Token(tok)
  {
  }

  lemma {:induction false} NegativeIdentity(tok: string, runs: seq<DeclaredRuns.Run>)
    requires |tok| > 1 && tok[0] == '-' && forall i :: 1 <= i < |tok| ==> tok[i] !in SEPARATORS
    requires Without(tok, "\\") && DeclaredRuns.GoodRuns(runs) && exists i, j :: HexRun(tok, i, j) && j - i >= 16
    ensures TryComposite(tok).Some? && FormUnit(Steps(Rendered(TryComposite(tok).value), runs)) != Param
  {
    hide DeclaredRuns.GoodRuns, Steps, IdentityStands, Identity, ClaimWf, MasksOnly, DiagnosticComposite, EphemeralRoot, VersionedRef,
      BracketTimestamp, BracketIndex, HashCounter, SourceOf, EmbeddedIdentity, IdentityPieces, Masks, Rendered;
    assert SeparatorByte(tok[0]);
    NoDiagnosticWithoutColon(tok);
    NoEphemeralWithoutSeparator(tok);
    NoReferenceWithoutSlash(tok);
    NoBracketRules(tok);
    NoCounterWithoutHash(tok);
    MarkerIsDollar(tok);
    var i, j :| HexRun(tok, i, j) && j - i >= 16;
    var first, last := WidestRun(tok, i, j);
    NegativeClaimed(tok, first, last);
    NegativeForm(tok, runs);
  }

  /** A run of hexadecimal digits lies in one that none prolongs. */
  lemma {:induction false} WidestRun(tok: string, i: nat, j: nat) returns (first: nat, last: nat)
    requires HexRun(tok, i, j)
    ensures first <= i < j <= last <= |tok| && HexRun(tok, first, last)
    ensures (first > 0 ==> !HexChar(tok[first - 1])) && (last < |tok| ==> !HexChar(tok[last]))
    decreases i + (|tok| - j)
  {
    if i > 0 && HexChar(tok[i - 1]) {
      assert tok[i - 1..j] == [tok[i - 1]] + tok[i..j];
      first, last := WidestRun(tok, i - 1, j);
    } else if j < |tok| && HexChar(tok[j]) {
      assert tok[i..j + 1] == tok[i..j] + [tok[j]];
      first, last := WidestRun(tok, i, j + 1);
    } else {
      first, last := i, j;
    }
  }

  lemma {:induction false} NegativeClaimed(tok: string, first: nat, last: nat)
    requires tok != "" && tok[0] == '-' && HexRun(tok, first, last) && last - first >= 16
    requires (first > 0 ==> !HexChar(tok[first - 1])) && (last < |tok| ==> !HexChar(tok[last]))
    ensures EmbeddedIdentity(tok) == Some(IdentityPieces(tok, 0))
  {
    hide Identity, SourceOf, MasksOnly, IdentityPieces, IdentityEnd;
    assert IdentityStands(tok, first, last);
    IdentityIsMasked(tok, 0, first, last);
    var ps := IdentityPieces(tok, 0);
    RangesNeedMasks(ps, 0);
  }

  lemma {:induction false} RangesNeedMasks(ps: seq<Piece>, at: nat)
    ensures MaskedRanges(ps, at) != [] ==> Masks(ps)
  {
    if ps != [] {
      RangesNeedMasks(ps[1..], at + |ps[0].text|);
      if ps[0].Masked? {
        assert Masks(ps);
      } else if Masks(ps[1..]) {
        var i :| 0 <= i < |ps| - 1 && ps[1..][i].Masked?;
        assert ps[i + 1].Masked?;
      }
    }
  }

  lemma {:induction false} NegativeForm(tok: string, runs: seq<DeclaredRuns.Run>)
    requires |tok| > 1 && tok[0] == '-' && Without(tok, "=") && DeclaredRuns.GoodRuns(runs)
    ensures var form := Rendered(IdentityPieces(tok, 0)); FormUnit(Steps(form, runs)) != Param
  {
    hide DeclaredRuns.GoodRuns, DeclaredStep, Identity, MasksOnly;
    var form := Rendered(IdentityPieces(tok, 0));
    NegativeHead(tok);
    RenderedWithout(IdentityPieces(tok, 0));
    DeclaredKeepsHead(form, runs);
  }

  lemma {:induction false} NegativeHead(tok: string)
    requires tok != "" && tok[0] == '-'
    ensures Rendered(IdentityPieces(tok, 0)) != "" && Rendered(IdentityPieces(tok, 0))[0] == '-'
  {
    hide MasksOnly, Identity;
    assert UuidAt(tok, 0) ==> UuidByte(0 - 0, tok[0]);
    assert InstantAt(tok, 0) ==> InstantByte(0 - 0, tok[0]);
    assert IdentityEnd(tok, 0) == None;
    assert IdentityPieces(tok, 0)[0] == Kept([tok[0]]);
  }

  /** A masked piece shows no equals sign, and a kept one shows its own bytes. */
  lemma {:induction false} RenderedWithout(ps: seq<Piece>)
    requires Without(SourceOf(ps), "=")
    ensures Without(Rendered(ps), "=")
  {
    if ps != [] {
      var rest := SourceOf(ps[1..]);
      assert forall i :: 0 <= i < |rest| ==> rest[i] == SourceOf(ps)[|ps[0].text| + i];
      assert forall i :: 0 <= i < |ps[0].text| ==> ps[0].text[i] == SourceOf(ps)[i];
      RenderedWithout(ps[1..]);
    }
  }

  lemma {:induction false} DigitsAt(s: string, i: nat, j: nat, k: nat)
    requires i <= k < j <= |s| && AllDigits(s[i..j])
    ensures Digit(s[k])
  {
    assert s[i..j][k - i] == s[k];
  }

  /** The bytes of an address: an opening byte first at most, then digits, dots, a colon and closing bytes. */
  lemma {:induction false} AddressByte(s: string, e1: nat, e2: nat, e3: nat, e4: nat, q: nat, i: nat)
    requires AddressCut(s, e1, e2, e3, e4, q) && i < |s|
    ensures Digit(s[i]) || s[i] in "])}>\"',;:." || (i == 0 && s[i] in "[({<\"'")
  {
    var start: nat := if s[0] in "[({<\"'" then 1 else 0;
    if start <= i < e1 {
      DigitsAt(s, start, e1, i);
    } else if e1 < i < e2 {
      DigitsAt(s, e1 + 1, e2, i);
    } else if e2 < i < e3 {
      DigitsAt(s, e2 + 1, e3, i);
    } else if e3 < i < e4 {
      DigitsAt(s, e3 + 1, e4, i);
    } else if e4 < i < q {
      DigitsAt(s, e4 + 1, q, i);
    }
  }

  lemma {:induction false} AddressQuiet(s: string, e1: nat, e2: nat, e3: nat, e4: nat, q: nat)
    requires AddressCut(s, e1, e2, e3, e4, q)
    ensures s != "" && Without(s, "/\\#=-") && Letterless(s) && MarkerPrefix(s) == 0 && Without(s[1..], "[")
  {
    assert s != "";
    hide AddressCut;
    forall i | 0 <= i < |s|
      ensures s[i] !in "/\\#=-" && !Alpha(s[i]) && s[i] != '$' && (i > 0 ==> s[i] != '[')
    {
      AddressByte(s, e1, e2, e3, e4, q, i);
      AddressClass(s[i]);
    }
    assert forall i :: 0 <= i < |s[1..]| ==> s[1..][i] == s[i + 1];
  }

  lemma {:induction false} AddressClass(c: char)
    requires Digit(c) || c in "])}>\"',;:." || c in "[({<\"'"
    ensures c !in "/\\#=-" && !Alpha(c) && c != '$'
    ensures !(c in "[({<\"'") ==> c != '['
    ensures !Digit(c) ==> !HexChar(c)
  {
  }

  lemma {:induction false} AddressHexRuns(s: string, e1: nat, e2: nat, e3: nat, e4: nat, q: nat, i: int, j: int)
    requires AddressCut(s, e1, e2, e3, e4, q) && q - e4 <= 16 && HexRun(s, i, j)
    ensures j - i < 16
  {
    hide HexRun, AllDigits;
    HexRunIn(s, i, j);
    if i <= e3 < j {
      HexRunAt(s, i, j, e3);
    } else if i <= e4 < j {
      HexRunAt(s, i, j, e4);
      AddressByte(s, e1, e2, e3, e4, q, e4);
      AddressClass(s[e4]);
    } else if i <= q < j {
      HexRunAt(s, i, j, q);
      AddressClass(s[q]);
      TailClass(s[q]);
    }
  }

  lemma {:induction false} HexRunIn(s: string, i: int, j: int)
    requires HexRun(s, i, j)
    ensures 0 <= i < j <= |s|
  {
  }

  /** An address, in an opening byte, with a port of at most fifteen digits and closing bytes or bare, is a param
      if and only if the switch is on; off, it is kept as it is. */
  lemma {:induction false} AddressBySwitch(s: string, e1: nat, e2: nat, e3: nat, e4: nat, q: nat, prev: string, maskIps: bool,
                                            runs: seq<DeclaredRuns.Run>)
    requires AddressCut(s, e1, e2, e3, e4, q) && q - e4 <= 16 && DeclaredRuns.GoodRuns(runs)
    ensures UnitOf(s, prev, maskIps, runs) == if maskIps then Param else Literal(s)
  {
    hide DeclaredRuns.GoodRuns, Steps, TryComposite, Ipv4Token, HexRun, Every, StatusKeyword, OctetRun, TailFrom, IdentityFree;
    AddressIsToken(s, e1, e2, e3, e4, q);
    AddressQuiet(s, e1, e2, e3, e4, q);
    forall i, j | HexRun(s, i, j)
      ensures j - i < 16
    {
      AddressHexRuns(s, e1, e2, e3, e4, q, i, j);
    }
    NoDashNoIdentity(s);
    AddressNoBracket(s, e1, e2, e3, e4, q);
    QuietUnclaimed(s);
    AddressNoHash(s, e1);
  }

  lemma {:induction false} AddressNoHash(s: string, at: nat)
    requires at < |s| && s[at] == '.' && Without(s, "-")
    ensures !AllDigit(s) && !UuidOrLongHash(s)
  {
    if |s| == UUID {
      assert !UuidByte(8 - 0, s[8]);
    }
  }

  lemma {:induction false} AddressNoBracket(s: string, e1: nat, e2: nat, e3: nat, e4: nat, q: nat)
    requires AddressCut(s, e1, e2, e3, e4, q) && Without(s, "-") && Without(s[1..], "[")
    ensures BracketTimestamp(s) == None && BracketIndex(s) == None
  {
    hide OctetEnd, TailFrom, ClaimWf;
    if s[0] == '[' {
      DigitsAt(s, 1, e1, 1);
      assert RunEnd(s, 1, Alpha) == 1;
      DigitsEndExact(s, 1, e1);
      NoStampWithoutDash(s);
    } else {
      forall i | 0 <= i < |s|
        ensures s[i] != '['
      {
        assert i > 0 ==> s[i] == s[1..][i - 1];
      }
      NoBracketRules(s);
    }
  }

  lemma {:induction false} NoStampWithoutDash(s: string)
    requires |s| > 1 && Without(s, "-")
    ensures BracketTimestamp(s) == None
  {
    hide Transport.DatetimeLength;
    if |s| >= 3 && Transport.DatetimeLength(s, 1) > 0 {
      StampHasDash(s);
    }
  }

  lemma {:induction false} StampHasDash(s: string)
    requires |s| > 1 && Transport.DatetimeLength(s, 1) > 0
    ensures 5 < |s| && s[5] == '-'
  {
    hide Transport.DatetimeLength;
    var k := Transport.MeasuredStops(s, 1);
    var d := s[1..1 + Transport.DatetimeLength(s, 1)];
    assert Transport.Fits(d[0 + 4], Transport.SHAPE[4]);
    assert d[4] == s[5];
  }

  // ----- numbers in a shell -----

  /** An opening byte, a core free of that pair's bytes, its closing byte and at most two trailing bytes. */
  predicate Shell(tok: string, open: char, core: string, close: char, tail: string) {
    && tok == [open] + core + [close] + tail && core != "" && open !in core && close !in core
    && ((open == '[' && close == ']') || (open == '(' && close == ')') || (open == '{' && close == '}') || (open == '<' && close == '>') ||
        (open == '"' && close == '"') || (open == '\'' && close == '\''))
    && |tail| <= 2 && forall i :: 0 <= i < |tail| ==> tail[i] in ",;:."
  }

  lemma {:induction false} ShellCoreIs(tok: string, open: char, core: string, close: char, tail: string)
    requires Shell(tok, open, core, close, tail)
    ensures ShellCore(tok) == Some(core)
  {
    ShellBytes(tok, open, core, close, tail);
    ShellCut(tok, core, close);
  }

  lemma {:induction false} ShellBytes(tok: string, open: char, core: string, close: char, tail: string)
    requires Shell(tok, open, core, close, tail)
    ensures var at := 1 + |core|;
      && at < |tok| <= at + 3 && tok[0] == open && tok[at] == close && tok[1..at] == core
      && WrapperOpen(open) && close == CloserOf(open) && !TrailingPunct(close)
      && forall i :: at < i < |tok| ==> TrailingPunct(tok[i])
  {
    var at := 1 + |core|;
    assert forall i :: 0 <= i < |tail| ==> tok[at + 1 + i] == tail[i];
    CloserIsNoTail(close);
    forall i | at < i < |tok|
      ensures TrailingPunct(tok[i])
    {
      assert tok[i] == tail[i - at - 1];
    }
  }

  lemma {:induction false} ShellCut(tok: string, core: string, close: char)
    requires core != "" && 1 + |core| < |tok| <= 4 + |core| && tok[1 + |core|] == close && tok[1..1 + |core|] == core
    requires WrapperOpen(tok[0]) && close == CloserOf(tok[0]) && !TrailingPunct(close) && tok[0] !in core && close !in core
    requires forall i :: 1 + |core| < i < |tok| ==> TrailingPunct(tok[i])
    ensures ShellCore(tok) == Some(core)
  {
    hide WrapperOpen, CloserOf, TrailingPunct;
  }

  lemma {:induction false} CloserIsNoTail(c: char)
    requires c in "])}>\"'"
    ensures !TrailingPunct(c)
  {
  }

  /** A digit-led core in a shell other than the square one, when no composite has a byte to start from and it is
      no address: a param, except a short status number, which is kept with its shell. */
  lemma {:induction false} ShelledNumber(tok: string, open: char, core: string, close: char, tail: string, prev: string, maskIps: bool,
                                         runs: seq<DeclaredRuns.Run>)
    requires Shell(tok, open, core, close, tail) && Digit(core[0]) && Quiet(tok) && Without(tok, "[") && !Address(tok)
    requires DeclaredRuns.GoodRuns(runs)
    ensures UnitOf(tok, prev, maskIps, runs) ==
      if ShortStatus(core, prev) then Literal(DeclaredStep(tok, runs)) else Param
  {
    hide DeclaredRuns.GoodRuns, DeclaredStep, TryComposite, Ipv4Token, AddressCut, StatusKeyword, ShellCore, UuidOrLongHash, SpelledAs, IdentityFree, Letterless;
    NoBracketRules(tok);
    QuietUnclaimed(tok);
    AddressExactly(tok);
    ShellCoreIs(tok, open, core, close, tail);
    ShortStatusIs(core, prev);
    ShellNoHash(tok, open, core, close, tail);
    if ShortStatus(core, prev) {
      ShellSteps(tok, open, core, close, tail, runs);
    }
  }

  lemma {:induction false} ShellNoHash(tok: string, open: char, core: string, close: char, tail: string)
    requires Shell(tok, open, core, close, tail)
    ensures !AllDigit(tok) && !UuidOrLongHash(tok) && !DigitLeading(tok)
  {
    assert tok[0] == open && open in "[({<\"'";
    OpenIsNoHex(open);
    if |tok| == UUID {
      assert !UuidByte(0 - 0, tok[0]);
    }
  }

  lemma {:induction false} OpenIsNoHex(c: char)
    requires c in "[({<\"'"
    ensures !HexChar(c) && !Digit(c) && c != '+' && c != '-'
  {
  }

  lemma {:induction false} ShellSteps(tok: string, open: char, core: string, close: char, tail: string, runs: seq<DeclaredRuns.Run>)
    requires Shell(tok, open, core, close, tail) && Digit(core[0]) && Without(tok, "=") && DeclaredRuns.GoodRuns(runs)
    requires AllDigits(core)
    ensures SegmentStep(tok) == tok && DeclaredStep(tok, runs) != WILDCARD
  {
    hide DeclaredRuns.GoodRuns, DeclaredRuns.Claims, DeclaredStep;
    assert tok[0] == open && tok[1] == core[0];
    OpenIsNoHex(open);
    DeclaredGrows(tok, runs);
    assert '=' !in tok;
  }

  /** A claim behind the first byte leaves more than a wildcard. */
  lemma {:induction false} DeclaredGrows(form: string, runs: seq<DeclaredRuns.Run>)
    requires form != "" && !Digit(form[0]) && DeclaredRuns.GoodRuns(runs)
    ensures DeclaredStep(form, runs) == form || |DeclaredStep(form, runs)| > 3
  {
    hide DeclaredRuns.GoodRuns, DeclaredRuns.Claims, DeclaredRuns.Apart;
    DeclaredRuns.ClaimsSound(form, runs);
    var claims := DeclaredRuns.Claims(form, runs);
    if runs != [] && claims != [] {
      StartsWithDigit(form, claims[0]);
      DeclaredRuns.ApartPlaced(claims, 0, |form|);
    }
  }
}
