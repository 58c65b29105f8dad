/**
 The single-token rules of the masker told from the bytes alone, in both directions: the shapes a rule claims,
 with the range it masks, are exactly those it claims. Byte classes are given by their codes.
 */
module MaskLaws {
  import opened Wrappers
  import opened Text
  import opened MaskPieces
  import opened MaskRules
  import opened MaskPaths
  import opened Masker
  import opened TokenShapes
  import DeclaredRuns

  // ----- bytes -----

  lemma {:induction false} ClassIs(c: char)
    ensures (Alpha(c) <==> Letter(c)) && (Digit(c) <==> Numeral(c)) && (Alnum(c) <==> Letter(c) || Numeral(c))
  {
  }

  /** Only digits from `i` to `j`, one at least. */
  predicate Numerals(s: string, i: nat, j: nat) {
    i < j <= |s| && forall k :: i <= k < j ==> Numeral(s[k])
  }

  /** No letter and no digit from `i` on. */
  predicate NoneFrom(s: string, i: nat) {
    i <= |s| && forall k :: i <= k < |s| ==> !Letter(s[k]) && !Numeral(s[k])
  }

  lemma {:induction false} NumeralsAre(s: string, i: nat, j: nat)
    requires i <= j <= |s|
    ensures Numerals(s, i, j) <==> i < j && AllDigits(s[i..j])
  {
    forall k | i <= k < j
      ensures s[i..j][k - i] == s[k]
    {
    }
  }

  lemma {:induction false} NoneFromIs(s: string, i: nat)
    requires i <= |s|
    ensures NoneFrom(s, i) <==> NoAlnum(s[i..])
  {
    hide Letter, Numeral, Alnum;
    forall k | i <= k < |s|
      ensures Alnum(s[i..][k - i]) <==> Letter(s[k]) || Numeral(s[k])
    {
      ClassIs(s[k]);
    }
  }

  lemma {:induction false} LastByte(tok: string, c: char, k: nat)
    requires LastOf(tok, c).Some? && LastOf(tok, c).value < k < |tok|
    ensures tok[k] != c
  {
    var at := LastOf(tok, c).value;
    assert tok[at + 1..][k - at - 1] == tok[k];
  }

  lemma {:induction false} FirstByte(tok: string, c: char, k: nat)
    requires FirstOf(tok, c, 0).Some? && k < FirstOf(tok, c, 0).value
    ensures tok[k] != c
  {
    assert tok[0..FirstOf(tok, c, 0).value][k] == tok[k];
  }

  // ----- references -----

  /** A last slash, then digits and dots from a digit on to `end`, then no letter and no digit. */
  predicate ReferenceShape(tok: string, slash: nat, end: nat) {
    && slash + 1 < end <= |tok| && tok[slash] == '/' && (forall k :: slash < k < |tok| ==> tok[k] != '/')
    && Numeral(tok[slash + 1]) && (forall k :: slash < k < end ==> Numeral(tok[k]) || tok[k] == '.')
    && (end < |tok| ==> tok[end] != '.') && NoneFrom(tok, end)
  }

  lemma {:induction false} ReferenceIsClaimed(tok: string, slash: nat, end: nat)
    requires ReferenceShape(tok, slash, end)
    ensures VersionedRef(tok) == Some(MaskRange(tok, slash + 1, end))
  {
    hide NoAlnum, VersionedRef, LastOf, RunEnd;
    NoneFromIs(tok, end);
    var run, rest := tok[slash + 1..end], tok[slash + 1..];
    assert forall k :: 0 <= k < |rest| ==> rest[k] == tok[slash + 1 + k];
    forall k | 0 <= k < |run|
      ensures DigitOrDot(run[k])
    {
      assert run[k] == tok[slash + 1 + k];
    }
    VersionedRefExactly(tok, slash, end);
  }

  lemma {:induction false} ReferenceHasShape(tok: string) returns (slash: nat, end: nat)
    requires VersionedRef(tok).Some?
    ensures ReferenceShape(tok, slash, end)
  {
    hide NoAlnum, LastOf, RunEnd, ClaimWf, Every, NoneFrom;
    slash := LastOf(tok, '/').value;
    end := RunEnd(tok, slash + 1, DigitOrDot);
    NoneFromIs(tok, end);
    ReferenceRun(tok, slash + 1, end);
    forall k | slash < k < |tok|
      ensures tok[k] != '/'
    {
      LastByte(tok, '/', k);
    }
  }

  lemma {:induction false} ReferenceRun(tok: string, start: nat, end: nat)
    requires start < |tok| && Digit(tok[start]) && end == RunEnd(tok, start, DigitOrDot)
    ensures start < end <= |tok| && Numeral(tok[start]) && (end < |tok| ==> tok[end] != '.')
    ensures forall k :: start <= k < end ==> Numeral(tok[k]) || tok[k] == '.'
  {
    forall k | start <= k < end
      ensures Numeral(tok[k]) || tok[k] == '.'
    {
      RunByte(tok, start, DigitOrDot, k);
    }
  }

  /** A reference is claimed if and only if it has the shape, and exactly its version is masked. */
  lemma {:induction false} ReferenceExactly(tok: string)
    ensures VersionedRef(tok).Some? <==> exists slash: nat, end: nat :: ReferenceShape(tok, slash, end)
    ensures forall slash: nat, end: nat :: ReferenceShape(tok, slash, end) ==> slash + 1 <= end <= |tok| && VersionedRef(tok) == Some(MaskRange(tok, slash + 1, end))
  {
    hide ReferenceShape, VersionedRef, ClaimWf, MaskRange;
    forall slash: nat, end: nat | ReferenceShape(tok, slash, end)
      ensures slash + 1 <= end <= |tok| && VersionedRef(tok) == Some(MaskRange(tok, slash + 1, end))
    {
      ReferenceBounds(tok, slash, end);
      ReferenceIsClaimed(tok, slash, end);
    }
    if VersionedRef(tok).Some? {
      var slash, end := ReferenceHasShape(tok);
    }
  }

  lemma {:induction false} ReferenceBounds(tok: string, slash: nat, end: nat)
    requires ReferenceShape(tok, slash, end)
    ensures slash + 1 < end <= |tok|
  {
  }

  // ----- bracketed indices -----

  /** The first opening bracket, letters, digits from `at` to `end`, the closing bracket. */
  predicate IndexShape(tok: string, open: nat, at: nat, end: nat) {
    && open < at < end < |tok| && tok[open] == '[' && (forall k :: 0 <= k < open ==> tok[k] != '[')
    && (forall k :: open < k < at ==> Letter(tok[k])) && Numerals(tok, at, end) && tok[end] == ']'
  }

  lemma {:induction false} IndexExactly(tok: string)
    ensures BracketIndex(tok).Some? <==> exists open: nat, at: nat, end: nat :: IndexShape(tok, open, at, end)
    ensures forall open: nat, at: nat, end: nat :: IndexShape(tok, open, at, end) ==> at <= end <= |tok| && BracketIndex(tok) == Some(MaskRange(tok, at, end))
  {
    hide IndexShape, BracketIndex, ClaimWf, MaskRange;
    forall open: nat, at: nat, end: nat | IndexShape(tok, open, at, end)
      ensures at <= end <= |tok| && BracketIndex(tok) == Some(MaskRange(tok, at, end))
    {
      IndexIsClaimed(tok, open, at, end);
    }
    if BracketIndex(tok).Some? {
      var open, at, end := IndexHasShape(tok);
    }
  }

  lemma {:induction false} IndexIsClaimed(tok: string, open: nat, at: nat, end: nat)
    requires IndexShape(tok, open, at, end)
    ensures at < end <= |tok| && BracketIndex(tok) == Some(MaskRange(tok, at, end))
  {
    hide BracketIndex;
    NumeralsAre(tok, at, end);
    var prefix := tok[open + 1..at];
    forall k | 0 <= k < |prefix|
      ensures Alpha(prefix[k])
    {
      assert prefix[k] == tok[open + 1 + k];
    }
    BracketIndexExactly(tok, open, at, end);
  }

  lemma {:induction false} IndexHasShape(tok: string) returns (open: nat, at: nat, end: nat)
    requires BracketIndex(tok).Some?
    ensures IndexShape(tok, open, at, end)
  {
    hide FirstOf, RunEnd, DigitsEnd, ClaimWf, Every, Numerals;
    open := FirstOf(tok, '[', 0).value;
    at := RunEnd(tok, open + 1, Alpha);
    end := DigitsEnd(tok, at);
    NumeralsAre(tok, at, end);
    LetterRun(tok, open + 1, at);
    forall k | 0 <= k < open
      ensures tok[k] != '['
    {
      FirstByte(tok, '[', k);
    }
  }

  lemma {:induction false} LetterRun(tok: string, start: nat, end: nat)
    requires start <= |tok| && end == RunEnd(tok, start, Alpha)
    ensures forall k :: start <= k < end ==> Letter(tok[k])
  {
    forall k | start <= k < end
      ensures Letter(tok[k])
    {
      RunByte(tok, start, Alpha, k);
    }
  }

  // ----- counters -----

  /** `#` at `at`, digits to `end`, and no letter or digit from there to `stop`. */
  predicate CounterShape(tok: string, at: nat, end: nat, stop: nat) {
    at < stop <= |tok| && tok[at] == '#' && Numerals(tok, at + 1, end) && end <= stop &&
    forall k :: end <= k < stop ==> !Letter(tok[k]) && !Numeral(tok[k])
  }

  /** A bare counter, or one that fills a shell. */
  ghost predicate CounterStands(tok: string, at: nat, end: nat) {
    || (at == 0 && CounterShape(tok, 0, end, |tok|))
    || (at == 1 && exists open, core, close, tail :: Shell(tok, open, core, close, tail) && CounterShape(tok, 1, end, 1 + |core|))
  }

  lemma {:induction false} BareCounterIs(tok: string)
    ensures BareCounterEnd(tok).Some? ==> CounterShape(tok, 0, BareCounterEnd(tok).value, |tok|)
    ensures forall end: nat :: CounterShape(tok, 0, end, |tok|) ==> BareCounterEnd(tok) == Some(end)
  {
    hide NoAlnum, DigitsEnd;
    if BareCounterEnd(tok).Some? {
      var end := BareCounterEnd(tok).value;
      NumeralsAre(tok, 1, end);
      NoneFromIs(tok, end);
    }
    forall end: nat | CounterShape(tok, 0, end, |tok|)
      ensures BareCounterEnd(tok) == Some(end)
    {
      NumeralsAre(tok, 1, end);
      DigitsEndExact(tok, 1, end);
      NoneFromIs(tok, end);
      assert Numeral(tok[1]);
    }
  }

  lemma {:induction false} CounterExactly(tok: string)
    ensures HashCounter(tok).Some? <==> exists at: nat, end: nat :: CounterStands(tok, at, end)
    ensures forall at: nat, end: nat :: CounterStands(tok, at, end) ==> at + 1 <= end <= |tok| && HashCounter(tok) == Some(MaskRange(tok, at + 1, end))
  {
    hide BareCounterEnd, ShellCore, ClaimWf, MaskRange, CounterShape, Shell;
    BareCounterIs(tok);
    HashCounterIs(tok);
    forall at: nat, end: nat | CounterStands(tok, at, end)
      ensures at + 1 <= end <= |tok| && HashCounter(tok) == Some(MaskRange(tok, at + 1, end))
    {
      CounterIsClaimed(tok, at, end);
    }
    if HashCounter(tok).Some? {
      CounterHasShape(tok);
    }
  }

  lemma {:induction false} CounterIsClaimed(tok: string, at: nat, end: nat)
    requires CounterStands(tok, at, end)
    ensures at + 1 < end <= |tok| && HashCounter(tok) == Some(MaskRange(tok, at + 1, end))
  {
    hide BareCounterEnd, ShellCore, ClaimWf, MaskRange;
    BareCounterIs(tok);
    if at == 1 {
      var open, core, close, tail :| Shell(tok, open, core, close, tail) && CounterShape(tok, 1, end, 1 + |core|);
      ShellCoreIs(tok, open, core, close, tail);
      CoreCounter(tok, core, end);
      BareCounterIs(core);
      OpenIsNoCounter(tok, open, core, close, tail);
    }
  }

  lemma {:induction false} OpenIsNoCounter(tok: string, open: char, core: string, close: char, tail: string)
    requires Shell(tok, open, core, close, tail)
    ensures BareCounterEnd(tok) == None
  {
    assert tok[0] == open;
  }

  lemma {:induction false} CoreCounter(tok: string, core: string, end: nat)
    requires 1 + |core| <= |tok| && core == tok[1..1 + |core|]
    ensures CounterShape(tok, 1, end, 1 + |core|) <==> end >= 1 && CounterShape(core, 0, end - 1, |core|)
  {
    assert forall k :: 0 <= k < |core| ==> core[k] == tok[k + 1];
    assert forall k :: 1 <= k < 1 + |core| ==> tok[k] == core[k - 1];
  }

  lemma {:induction false} CounterHasShape(tok: string)
    requires HashCounter(tok).Some?
    ensures exists at: nat, end: nat :: CounterStands(tok, at, end)
  {
    hide BareCounterEnd, ShellCore, ClaimWf, Shell;
    BareCounterIs(tok);
    if BareCounterEnd(tok).Some? {
      assert CounterStands(tok, 0, BareCounterEnd(tok).value);
    } else {
      var core := ShellCore(tok).value;
      var open, close, tail := ShellHasShape(tok);
      BareCounterIs(core);
      CoreCounter(tok, core, 1 + BareCounterEnd(core).value);
      assert CounterStands(tok, 1, 1 + BareCounterEnd(core).value);
    }
  }

  /** What the shell reader accepts is a shell. */
  lemma {:induction false} ShellHasShape(tok: string) returns (open: char, close: char, tail: string)
    requires ShellCore(tok).Some? && ShellCore(tok).value != ""
    ensures Shell(tok, open, ShellCore(tok).value, close, tail)
  {
    var core := ShellCore(tok).value;
    open, close, tail := tok[0], tok[1 + |core|], tok[2 + |core|..];
    ShellParts(tok, core);
    hide ShellCore, TrailingPunct;
    forall i | 0 <= i < |tail|
      ensures tail[i] in ",;:."
    {
      assert tail[i] == tok[2 + |core| + i];
      PunctIs(tail[i]);
    }
    OpenerPairs(open);
    assert tok == [open] + core + [close] + tail;
  }

  lemma {:induction false} ShellParts(tok: string, core: string)
    requires ShellCore(tok) == Some(core)
    ensures 1 + |core| < |tok| <= 4 + |core| && core == tok[1..1 + |core|] && WrapperOpen(tok[0]) && tok[1 + |core|] == CloserOf(tok[0])
    ensures tok[0] !in core && CloserOf(tok[0]) !in core
    ensures forall i :: 2 + |core| <= i < |tok| ==> TrailingPunct(tok[i])
  {
    hide WrapperOpen, CloserOf, TrailingPunct;
  }

  lemma {:induction false} PunctIs(c: char)
    ensures TrailingPunct(c) <==> c in ",;:."
  {
  }

  lemma {:induction false} OpenerPairs(open: char)
    requires WrapperOpen(open)
    ensures var close := CloserOf(open);
      (open == '[' && close == ']') || (open == '(' && close == ')') || (open == '{' && close == '}') || (open == '<' && close == '>') ||
      (open == '"' && close == '"') || (open == '\'' && close == '\'')
  {
  }

  // ----- amounts and process tags -----

  /** A currency mark, digits to `whole`, a fraction or none to `end`, then no letter and no digit. */
  predicate AmountShape(tok: string, whole: nat, end: nat) {
    && tok != "" && tok[0] == '$' && Numerals(tok, 1, whole) && whole <= end && NoneFrom(tok, end)
    && if whole < |tok| && tok[whole] == '.' then Numerals(tok, whole + 1, end) else end == whole
  }

  lemma {:induction false} AmountExactly(tok: string)
    ensures MarkerNumber(tok).Some? <==> exists whole: nat, end: nat :: AmountShape(tok, whole, end)
    ensures forall whole: nat, end: nat :: AmountShape(tok, whole, end) ==> 1 <= end <= |tok| && MarkerNumber(tok) == Some(MaskRange(tok, 1, end))
  {
    hide AmountShape, MarkerNumber, ClaimWf, MaskRange;
    forall whole: nat, end: nat | AmountShape(tok, whole, end)
      ensures 1 <= end <= |tok| && MarkerNumber(tok) == Some(MaskRange(tok, 1, end))
    {
      AmountIsClaimed(tok, whole, end);
    }
    if MarkerNumber(tok).Some? {
      var whole, end := AmountHasShape(tok);
    }
  }

  lemma {:induction false} AmountIsClaimed(tok: string, whole: nat, end: nat)
    requires AmountShape(tok, whole, end)
    ensures 1 < end <= |tok| && MarkerNumber(tok) == Some(MaskRange(tok, 1, end))
  {
    hide MarkerNumber, NoAlnum;
    NumeralsAre(tok, 1, whole);
    NoneFromIs(tok, end);
    if whole < end {
      NumeralsAre(tok, whole + 1, end);
    }
    MarkerNumberExactly(tok, whole, end);
  }

  lemma {:induction false} AmountHasShape(tok: string) returns (whole: nat, end: nat)
    requires MarkerNumber(tok).Some?
    ensures AmountShape(tok, whole, end)
  {
    hide DigitsEnd, NoAlnum, ClaimWf;
    whole := DigitsEnd(tok, 2);
    end := if whole < |tok| && tok[whole] == '.' then DigitsEnd(tok, whole + 1) else whole;
    assert tok[1..whole] == [tok[1]] + tok[2..whole];
    NumeralsAre(tok, 1, whole);
    NoneFromIs(tok, end);
    if whole < |tok| && tok[whole] == '.' {
      NumeralsAre(tok, whole + 1, end);
    }
  }

  /** The fence, digits to `end`, the fence, then the end or a letter. */
  predicate TagShape(tok: string, end: nat) {
    && |tok| >= 2 && tok[0] == '=' && tok[1] == '=' && Numerals(tok, 2, end)
    && end + 2 <= |tok| && tok[end] == '=' && tok[end + 1] == '=' && (end + 2 < |tok| ==> Letter(tok[end + 2]))
  }

  lemma {:induction false} TagExactly(tok: string)
    ensures SanitizerPid(tok).Some? <==> exists end: nat :: TagShape(tok, end)
    ensures forall end: nat :: TagShape(tok, end) ==> 2 <= end <= |tok| && SanitizerPid(tok) == Some(MaskRange(tok, 2, end))
  {
    hide ClaimWf, DigitsEnd, MaskRange;
    assert |tok| >= 2 ==> (tok[..2] == "==" <==> tok[0] == '=' && tok[1] == '=');
    forall end: nat | TagShape(tok, end)
      ensures 2 <= end <= |tok| && SanitizerPid(tok) == Some(MaskRange(tok, 2, end))
    {
      TagIsClaimed(tok, end);
    }
    if SanitizerPid(tok).Some? {
      var end := DigitsEnd(tok, 2);
      NumeralsAre(tok, 2, end);
      assert tok[end..end + 2][0] == tok[end] && tok[end..end + 2][1] == tok[end + 1];
      assert TagShape(tok, end);
    }
  }

  lemma {:induction false} TagIsClaimed(tok: string, end: nat)
    requires TagShape(tok, end)
    ensures 2 < end <= |tok| && SanitizerPid(tok) == Some(MaskRange(tok, 2, end))
  {
    hide ClaimWf, MaskRange;
    NumeralsAre(tok, 2, end);
    DigitsEndExact(tok, 2, end);
    assert Numeral(tok[2]) && tok[..2] == "==" && tok[end..end + 2] == "==";
  }

  // ----- values behind an equals sign -----

  predicate WildcardFrom(v: string, i: int) {
    0 <= i && i + 3 <= |v| && v[i] == '<' && v[i + 1] == '*' && v[i + 2] == '>'
  }

  /** A number's extent runs over byte `i`: a letter, a digit, one of the five marks, a joint that a digit or a
      wildcard follows, or a byte of a wildcard. */
  predicate Crosses(v: string, i: nat) {
    i < |v| &&
    (Letter(v[i]) || Numeral(v[i]) || v[i] in "._+%-" ||
     (v[i] in ",:/" && i + 1 < |v| && (Numeral(v[i + 1]) || WildcardFrom(v, i + 1))) ||
     WildcardFrom(v, i) || WildcardFrom(v, i - 1) || WildcardFrom(v, i - 2))
  }

  predicate ExtentStops(v: string, k: nat) {
    k <= |v| && (forall i :: 0 <= i < k ==> Crosses(v, i)) && !Crosses(v, k)
  }

  lemma {:induction false} WildcardIs(v: string, i: nat)
    requires i <= |v|
    ensures WildcardAt(v, i) <==> WildcardFrom(v, i)
  {
    if WildcardAt(v, i) {
      assert v[i..][..3] == WILDCARD && v[i..][0] == v[i] && v[i..][1] == v[i + 1] && v[i..][2] == v[i + 2];
    }
    if WildcardFrom(v, i) {
      assert v[i..][..3] == WILDCARD;
    }
  }

  lemma {:induction false} ExtentByteIs(c: char)
    ensures ExtentByte(c) <==> Letter(c) || Numeral(c) || c in "._+%-"
    ensures ExtentJoint(c) <==> c in ",:/"
    ensures ExtentByte(c) ==> c != '<' && c != '*' && c != '>'
    ensures ExtentJoint(c) ==> c != '<' && c != '*' && c != '>'
  {
  }

  /** No wildcard was begun before `i` and reaches over it. */
  predicate Between(v: string, i: int) {
    !WildcardFrom(v, i - 1) && !WildcardFrom(v, i - 2)
  }

  lemma {:induction false} ExtentFrom(v: string, i: nat, k: nat)
    requires i <= k && ExtentStops(v, k) && Between(v, i)
    ensures ExtentEnd(v, i) == k
    decreases k - i
  {
    hide ExtentByte, ExtentJoint, WildcardAt, Letter, Numeral;
    if i < |v| {
      WildcardIs(v, i);
      ExtentByteIs(v[i]);
      if i + 1 < |v| {
        WildcardIs(v, i + 1);
        ClassIs(v[i + 1]);
      }
      if WildcardFrom(v, i) {
        assert Crosses(v, i + 1) && Crosses(v, i + 2) && k != i && k != i + 1 && k != i + 2;
        ExtentFrom(v, i + 3, k);
      } else if i < k {
        assert Crosses(v, i);
        ExtentFrom(v, i + 1, k);
      }
    }
  }

  /** The extent of a value ends at the first byte it does not run over. */
  lemma {:induction false} ExtentExactly(v: string, k: nat)
    requires ExtentStops(v, k)
    ensures ExtentEnd(v, 0) == k
  {
    ExtentFrom(v, 0, k);
  }

  /** The last thing a value may hold: closing bytes and punctuation only. */
  predicate OnlyTail(v: string, k: nat) {
    k <= |v| && forall i :: k <= i < |v| ==> v[i] in "])}>\"',;:."
  }

  lemma {:induction false} OnlyTailIs(v: string, k: nat)
    requires k <= |v|
    ensures OnlyTail(v, k) <==> Every(ShellTail, v[k..])
  {
    hide ShellTail;
    var rest := v[k..];
    forall i | k <= i < |v|
      ensures rest[i - k] == v[i] && (ShellTail(v[i]) <==> v[i] in "])}>\"',;:.")
    {
      TailClass(v[i]);
    }
    if OnlyTail(v, k) {
      forall i | 0 <= i < |rest|
        ensures ShellTail(rest[i])
      {
        assert rest[i] == v[i + k];
      }
    }
  }

  /** The value behind a key: nothing is masked unless it opens, behind a currency mark if there is one, with a
      digit or a sign and a digit, and nothing of a short number behind a status key; else its extent is, to the
      end of the text when closing bytes and punctuation alone follow. */
  lemma {:induction false} ValueExactly(text: string, keyStart: nat, start: nat, k: nat)
    requires keyStart < start <= |text|
    requires var from := start + (if start + 1 < |text| && text[start] == '$' then 1 else 0); ExtentStops(text[from..], k)
    ensures var from := start + (if start + 1 < |text| && text[start] == '$' then 1 else 0);
      && from + k <= |text|
      && MaskedValue(text, keyStart, start) ==
         if !SignedDigit(text[from..]) || ShortStatus(text[from..from + k], text[keyStart..start - 1]) then None
         else Some((from, if OnlyTail(text[from..], k) then |text| else from + k))
  {
    hide ExtentStops, StatusKeyword, SpelledAs, Every, OnlyTail, ExtentEnd, AllDigits;
    var from := start + (if start + 1 < |text| && text[start] == '$' then 1 else 0);
    assert from == start + MarkerPrefix(text[start..]);
    var value := text[from..];
    StopsWithin(value, k);
    ExtentExactly(value, k);
    assert value[..k] == text[from..from + k];
    ShortStatusIs(value[..k], text[keyStart..start - 1]);
    OnlyTailIs(value, k);
  }

  lemma {:induction false} StopsWithin(v: string, k: nat)
    requires ExtentStops(v, k)
    ensures k <= |v|
  {
  }

  /** Every value has one extent. */
  lemma {:induction false} ExtentExists(v: string)
    ensures ExtentStops(v, ExtentEnd(v, 0))
  {
    hide ExtentEnd, Crosses;
    var k := FirstUncrossed(v, 0);
    ExtentExactly(v, k);
  }

  lemma {:induction false} FirstUncrossed(v: string, i: nat) returns (k: nat)
    requires i <= |v| && forall j :: 0 <= j < i ==> Crosses(v, j)
    ensures ExtentStops(v, k)
    decreases |v| - i
  {
    if i < |v| && Crosses(v, i) {
      k := FirstUncrossed(v, i + 1);
    } else {
      k := i;
    }
  }

  /** A key and its value: claimed if and only if a first equals sign stands behind a key and the value behind it
      is masked, and then exactly the value's range is. */
  lemma {:induction false} KeyValueExactly(tok: string)
    ensures (forall eq: nat :: eq < |tok| && tok[eq] == '=' && (forall i :: 0 <= i < eq ==> tok[i] != '=') && eq > 0 ==>
             KvValue(tok) == match MaskedValue(tok, 0, eq + 1)
               case None => None
               case Some(range) => Some(MaskRange(tok, range.0, range.1)))
    ensures KvValue(tok).Some? ==> exists eq: nat :: 0 < eq < |tok| && tok[eq] == '='
    ensures tok != "" && tok[0] == '=' ==> KvValue(tok) == None
  {
    hide MaskedValue, ClaimWf, MaskRange;
    forall eq: nat | eq < |tok| && tok[eq] == '=' && (forall i :: 0 <= i < eq ==> tok[i] != '=')
      ensures FirstOf(tok, '=', 0) == Some(eq)
    {
      FirstOfIs(tok, '=', 0, eq);
    }
  }

  // ----- identities -----

  predicate AllHex(t: string) {
    forall i :: 0 <= i < |t| ==> Hex(t[i])
  }

  predicate AllNumerals(t: string) {
    forall i :: 0 <= i < |t| ==> Numeral(t[i])
  }

  /** Five groups of 8, 4, 4, 4 and 12 hexadecimal digits with dashes between. */
  predicate UuidText(t: string) {
    && |t| == 36 && AllHex(t[..8]) && t[8] == '-' && AllHex(t[9..13]) && t[13] == '-' && AllHex(t[14..18]) && t[18] == '-'
    && AllHex(t[19..23]) && t[23] == '-' && AllHex(t[24..])
  }

  /** `YYYY-MM-DDThhmmssZ`. */
  predicate InstantText(t: string) {
    && |t| == 18 && AllNumerals(t[..4]) && t[4] == '-' && AllNumerals(t[5..7]) && t[7] == '-' && AllNumerals(t[8..10])
    && t[10] == 'T' && AllNumerals(t[11..17]) && t[17] == 'Z'
  }

  lemma {:induction false} HexSlice(t: string, i: nat, j: nat)
    requires i <= j <= |t|
    ensures AllHex(t[i..j]) <==> forall k :: i <= k < j ==> HexChar(t[k])
  {
    hide Hex, HexChar;
    forall k | i <= k < j
      ensures t[i..j][k - i] == t[k] && (Hex(t[k]) <==> HexChar(t[k]))
    {
      HexIs(t[k]);
    }
    if forall k :: i <= k < j ==> HexChar(t[k]) {
      var u := t[i..j];
      forall n | 0 <= n < |u|
        ensures Hex(u[n])
      {
        assert u[n] == t[i + n] && HexChar(t[i + n]);
      }
    }
  }

  lemma {:induction false} NumeralSlice(t: string, i: nat, j: nat)
    requires i <= j <= |t|
    ensures AllNumerals(t[i..j]) <==> forall k :: i <= k < j ==> Digit(t[k])
  {
    forall k | i <= k < j
      ensures t[i..j][k - i] == t[k]
    {
    }
    if forall k :: i <= k < j ==> Digit(t[k]) {
      var u := t[i..j];
      forall n | 0 <= n < |u|
        ensures Numeral(u[n])
      {
        assert u[n] == t[i + n];
      }
    }
  }

  lemma {:induction false} UuidIs(t: string)
    requires |t| == 36
    ensures UuidText(t) <==> UuidAt(t, 0)
  {
    hide HexChar, AllHex;
    HexSlice(t, 0, 8);
    HexSlice(t, 9, 13);
    HexSlice(t, 14, 18);
    HexSlice(t, 19, 23);
    HexSlice(t, 24, 36);
    assert t[0..8] == t[..8] && t[24..36] == t[24..];
    if UuidAt(t, 0) {
      assert UuidByte(8 - 0, t[8]) && UuidByte(13 - 0, t[13]) && UuidByte(18 - 0, t[18]) && UuidByte(23 - 0, t[23]);
      forall k | 0 <= k < 36 && k != 8 && k != 13 && k != 18 && k != 23
        ensures HexChar(t[k])
      {
        assert UuidByte(k - 0, t[k]);
      }
    }
  }

  lemma {:induction false} InstantIs(t: string)
    requires |t| == 18
    ensures InstantText(t) <==> InstantShape(t, 0)
  {
    hide AllNumerals, Digit;
    NumeralSlice(t, 0, 4);
    NumeralSlice(t, 5, 7);
    NumeralSlice(t, 8, 10);
    NumeralSlice(t, 11, 17);
    assert t[0..4] == t[..4];
    if InstantShape(t, 0) {
      assert InstantByte(4 - 0, t[4]) && InstantByte(7 - 0, t[7]) && InstantByte(10 - 0, t[10]) && InstantByte(17 - 0, t[17]);
      forall k | 0 <= k < 18 && k != 4 && k != 7 && k != 10 && k != 17
        ensures Digit(t[k])
      {
        assert InstantByte(k - 0, t[k]);
      }
    }
  }

  /** The three shapes, by their bytes: a UUID; an instant with no letter or digit on either side; sixteen or more
      hexadecimal digits that none prolongs. */
  predicate IdentityText(tok: string, first: nat, last: nat)
    requires first < last <= |tok|
  {
    var t := tok[first..last];
    || UuidText(t)
    || (InstantText(t) && (first > 0 ==> !Letter(tok[first - 1]) && !Numeral(tok[first - 1])) &&
        (last < |tok| ==> !Letter(tok[last]) && !Numeral(tok[last])))
    || (|t| >= 16 && AllHex(t) && (first > 0 ==> !Hex(tok[first - 1])) && (last < |tok| ==> !Hex(tok[last])))
  }

  lemma {:induction false} IdentityTextIs(tok: string, first: nat, last: nat)
    requires first < last <= |tok|
    ensures IdentityText(tok, first, last) <==> IdentityStands(tok, first, last)
  {
    hide UuidText, InstantText, UuidAt, InstantShape, Hex, HexChar, Letter, Numeral, Alnum;
    var t := tok[first..last];
    if |t| == 36 {
      UuidIs(t);
      ShiftedUuid(tok, first, last);
    }
    if |t| == 18 {
      InstantIs(t);
      ShiftedInstant(tok, first, last);
    }
    UuidSize(t);
    AllHexIs(t);
    if first > 0 {
      HexIs(tok[first - 1]);
      ClassIs(tok[first - 1]);
    }
    if last < |tok| {
      HexIs(tok[last]);
      ClassIs(tok[last]);
    }
  }

  lemma {:induction false} UuidSize(t: string)
    ensures (UuidText(t) ==> |t| == 36) && (InstantText(t) ==> |t| == 18)
  {
  }

  lemma {:induction false} AllHexIs(t: string)
    ensures AllHex(t) <==> Every(HexChar, t)
  {
    hide Hex, HexChar;
    forall i | 0 <= i < |t|
      ensures Hex(t[i]) <==> HexChar(t[i])
    {
      HexIs(t[i]);
    }
  }

  lemma {:induction false} ShiftedUuid(tok: string, first: nat, last: nat)
    requires first + 36 == last <= |tok|
    ensures UuidAt(tok[first..last], 0) <==> UuidAt(tok, first)
  {
    hide HexChar;
    var t := tok[first..last];
    if UuidAt(tok, first) {
      forall k | 0 <= k < 36
        ensures UuidByte(k - 0, t[k])
      {
        assert UuidByte(first + k - first, tok[first + k]);
      }
    }
    if UuidAt(t, 0) {
      forall k | first <= k < first + 36
        ensures UuidByte(k - first, tok[k])
      {
        assert UuidByte(k - first - 0, t[k - first]);
      }
    }
  }

  lemma {:induction false} ShiftedInstant(tok: string, first: nat, last: nat)
    requires first + 18 == last <= |tok|
    ensures InstantShape(tok[first..last], 0) <==> InstantShape(tok, first)
  {
    var t := tok[first..last];
    if InstantShape(tok, first) {
      forall k | 0 <= k < 18
        ensures InstantByte(k - 0, t[k])
      {
        assert InstantByte(first + k - first, tok[first + k]);
      }
    }
    if InstantShape(t, 0) {
      forall k | first <= k < first + 18
        ensures InstantByte(k - first, tok[k])
      {
        assert InstantByte(k - first - 0, t[k - first]);
      }
    }
  }

  /** Every identity in a token is masked as one range, unless one that starts earlier reaches into it. */
  lemma {:induction false} IdentitiesAreMasked(tok: string, first: nat, last: nat)
    requires first < last <= |tok| && IdentityText(tok, first, last)
    ensures EmbeddedIdentity(tok).Some?
    ensures var ranges := MaskedRanges(EmbeddedIdentity(tok).value, 0);
      (first, last) in ranges || exists r :: r in ranges && r.0 < first < r.1
  {
    hide IdentityText, IdentityStands, IdentityPieces;
    IdentityTextIs(tok, first, last);
    IdentityIsMasked(tok, 0, first, last);
    RangesNeedMasks(IdentityPieces(tok, 0), 0);
  }

  /** A token that is one identity, by its bytes, is a param. */
  lemma {:induction false} LoneIdentityIsParam(tok: string, prev: string, maskIps: bool, runs: seq<DeclaredRuns.Run>)
    requires tok != "" && IdentityText(tok, 0, |tok|) && DeclaredRuns.GoodRuns(runs)
    ensures UnitOf(tok, prev, maskIps, runs) == Param
  {
    hide IdentityText, IdentityStands, UnitOf, DeclaredRuns.GoodRuns;
    IdentityTextIs(tok, 0, |tok|);
    IdentityIsParam(tok, prev, maskIps, runs);
  }

  // ----- the catalogue -----

  /** What each rule says of a token, in the catalogue's order. */
  function Verdicts(tok: string): (vs: seq<Option<seq<Piece>>>)
    ensures |vs| == 10
  {
    [DiagnosticComposite(tok), EphemeralRoot(tok), VersionedRef(tok), BracketTimestamp(tok), BracketIndex(tok), HashCounter(tok),
     MarkerNumber(tok), EmbeddedIdentity(tok), SanitizerPid(tok), KvValue(tok)]
  }

  /** A separator byte somewhere, or a currency mark before something. */
  predicate ReachesCatalogue(tok: string) {
    (|tok| > 1 && tok[0] == '$') || exists i :: 0 <= i < |tok| && tok[i] in SEPARATORS
  }

  lemma {:induction false} GateIs(tok: string)
    ensures Gated(tok) <==> !ReachesCatalogue(tok)
  {
    hide SeparatorByte;
    forall i | 0 <= i < |tok|
      ensures SeparatorByte(tok[i]) <==> tok[i] in SEPARATORS
    {
      SeparatorIs(tok[i]);
    }
  }

  lemma {:induction false} SeparatorIs(c: char)
    ensures SeparatorByte(c) <==> c in SEPARATORS
  {
  }

  predicate FirstVerdict(tok: string, k: nat)
    requires k < 10
  {
    Verdicts(tok)[k].Some? && forall j :: 0 <= j < k ==> Verdicts(tok)[j].None?
  }

  /** Of a token that reaches the catalogue the first rule that claims it decides; no other token is claimed. */
  lemma {:induction false} FirstRuleWins(tok: string)
    ensures TryComposite(tok).Some? <==> ReachesCatalogue(tok) && exists k :: 0 <= k < 10 && Verdicts(tok)[k].Some?
    ensures forall k :: 0 <= k < 10 && ReachesCatalogue(tok) && FirstVerdict(tok, k) ==> TryComposite(tok) == Verdicts(tok)[k]
  {
    hide DiagnosticComposite, EphemeralRoot, VersionedRef, BracketTimestamp, BracketIndex, HashCounter, MarkerNumber,
      EmbeddedIdentity, SanitizerPid, KvValue, Gated, ClaimWf, ReachesCatalogue;
    GateIs(tok);
    var vs := Verdicts(tok);
    assert vs[0] == DiagnosticComposite(tok) && vs[1] == EphemeralRoot(tok) && vs[2] == VersionedRef(tok) && vs[3] == BracketTimestamp(tok);
    assert vs[4] == BracketIndex(tok) && vs[5] == HashCounter(tok) && vs[6] == MarkerNumber(tok) && vs[7] == EmbeddedIdentity(tok);
    assert vs[8] == SanitizerPid(tok) && vs[9] == KvValue(tok);
  }

  /** A digit-led core fills a shell, and it is no short number behind a status word. */
  ghost predicate NumberInShell(tok: string, prev: string) {
    exists open, core, close, tail :: Shell(tok, open, core, close, tail) && Numeral(core[0]) && !ShortStatus(core, prev)
  }

  lemma {:induction false} NumberInShellIs(tok: string, prev: string)
    ensures ShelledNumeric(tok, prev) <==> NumberInShell(tok, prev)
  {
    hide ShellCore, StatusKeyword, SpelledAs, ShortStatus, AllDigit;
    if ShelledNumeric(tok, prev) {
      var core := ShellCore(tok).value;
      var open, close, tail := ShellHasShape(tok);
      ShortStatusIs(core, prev);
      assert Shell(tok, open, core, close, tail) && Numeral(core[0]) && !ShortStatus(core, prev);
    }
    if NumberInShell(tok, prev) {
      var open, core, close, tail :| Shell(tok, open, core, close, tail) && Numeral(core[0]) && !ShortStatus(core, prev);
      ShellCoreIs(tok, open, core, close, tail);
      ShortStatusIs(core, prev);
    }
  }

  /** A token no composite claims: a short number behind a status word is kept, a long hexadecimal run is a param,
      an address is one exactly with the switch on, a token led by a digit or a sign and a digit is one and so is a
      number in a shell; all the rest is its own normal form. */
  lemma {:induction false} UnclaimedExactly(tok: string, prev: string, maskIps: bool, runs: seq<DeclaredRuns.Run>)
    requires tok != "" && TryComposite(tok) == None && DeclaredRuns.GoodRuns(runs)
    ensures UnitOf(tok, prev, maskIps, runs) ==
      if ShortStatus(tok, prev) then Literal(tok)
      else if LongHex(tok) then Param
      else if Address(tok) then (if maskIps then Param else Literal(tok))
      else if SignedDigit(tok) || NumberInShell(tok, prev) then Param
      else FormUnit(Steps(tok, runs))
  {
    hide TryComposite, Ipv4Token, Address, ShortStatus, LongHex, AllDigit, StatusKeyword, Steps, DeclaredRuns.GoodRuns, Every, UuidAt,
      ShelledNumeric, NumberInShell;
    ShortStatusIs(tok, prev);
    LongHexIs(tok);
    AddressExactly(tok);
    NumberInShellIs(tok, prev);
    if |tok| == UUID && UuidAt(tok, 0) {
      DashedIdentityClaimed(tok);
    }
  }

  // ----- the line -----

  /** Each token is read behind the token before it. */
  lemma {:induction false} UnitsAt(toks: seq<string>, prev: string, maskIps: bool, runs: seq<DeclaredRuns.Run>, k: nat)
    requires DeclaredRuns.GoodRuns(runs) && k < |toks|
    ensures UnitsOf(toks, prev, maskIps, runs)[k] == UnitOf(toks[k], if k == 0 then prev else toks[k - 1], maskIps, runs)
    decreases |toks|
  {
    hide UnitOf, DeclaredRuns.GoodRuns;
    if k > 0 {
      UnitsAt(toks[1..], toks[0], maskIps, runs, k - 1);
    }
  }

  /** Tokens with spaces before them, and spaces at the end. */
  function Spaced(blanks: seq<nat>, toks: seq<string>, last: nat): string
    requires |blanks| == |toks|
  {
    if toks == [] then Spaces(last) else Spaces(blanks[0]) + (toks[0] + Spaced(blanks[1..], toks[1..], last))
  }

  function Spaces(n: nat): (s: string)
    ensures |s| == n && forall i :: 0 <= i < n ==> s[i] == ' '
  {
    if n == 0 then "" else " " + Spaces(n - 1)
  }

  /** However many spaces stand between, before and behind them, a line's tokens are its words without spaces. */
  lemma {:induction false} TokensOfSpaced(line: string, pos: nat, blanks: seq<nat>, toks: seq<string>, last: nat)
    requires |blanks| == |toks| && AllTokens(toks) && pos <= |line| && line[pos..] == Spaced(blanks, toks, last)
    requires forall i :: 1 <= i < |toks| ==> blanks[i] > 0
    ensures Tokens(line, pos) == toks
    decreases |toks|
  {
    hide RunEnd, Every, IsToken;
    if toks == [] {
      OnlySpaces(line, pos, last);
    } else {
      var start, end := pos + blanks[0], pos + blanks[0] + |toks[0]|;
      SpacedHead(line, pos, blanks, toks, last);
      RunBetween(line, pos, start, Space);
      RunBetween(line, start, end, NoSpace);
      TokensOfSpaced(line, end, blanks[1..], toks[1..], last);
    }
  }

  lemma {:induction false} OnlySpaces(line: string, pos: nat, last: nat)
    requires pos <= |line| && line[pos..] == Spaces(last)
    ensures Tokens(line, pos) == []
  {
    assert line[pos..|line|] == line[pos..];
    RunBetween(line, pos, |line|, Space);
  }

  lemma {:induction false} SpacedHead(line: string, pos: nat, blanks: seq<nat>, toks: seq<string>, last: nat)
    requires |blanks| == |toks| && AllTokens(toks) && pos <= |line| && line[pos..] == Spaced(blanks, toks, last) && toks != []
    requires forall i :: 1 <= i < |toks| ==> blanks[i] > 0
    ensures var start, end := pos + blanks[0], pos + blanks[0] + |toks[0]|;
      && start < end <= |line| && line[start..end] == toks[0] && line[end..] == Spaced(blanks[1..], toks[1..], last)
      && Every(Space, line[pos..start]) && !Space(line[start]) && Every(NoSpace, line[start..end]) && (end < |line| ==> !NoSpace(line[end]))
  {
    var rest := Spaced(blanks[1..], toks[1..], last);
    var start, end := pos + blanks[0], pos + blanks[0] + |toks[0]|;
    SpacedNext(blanks[1..], toks[1..], last);
    ThreeParts(line, pos, Spaces(blanks[0]), toks[0], rest);
    assert IsToken(toks[0]);
    assert line[start] == line[start..end][0] && (end < |line| ==> line[end] == rest[0]);
  }

  lemma {:induction false} SpacedNext(blanks: seq<nat>, toks: seq<string>, last: nat)
    requires |blanks| == |toks| && (toks != [] ==> blanks[0] > 0)
    ensures var text := Spaced(blanks, toks, last); text != "" ==> text[0] == ' '
  {
  }

  lemma {:induction false} ThreeParts(line: string, pos: nat, a: string, b: string, c: string)
    requires pos <= |line| && line[pos..] == a + (b + c)
    ensures pos + |a| + |b| <= |line| && line[pos..pos + |a|] == a && line[pos + |a|..pos + |a| + |b|] == b
    ensures line[pos + |a| + |b|..] == c
  {
    assert line[pos..pos + |a|] == line[pos..][..|a|];
    assert line[pos + |a|..pos + |a| + |b|] == line[pos..][|a|..|a| + |b|];
    assert line[pos + |a| + |b|..] == line[pos..][|a| + |b|..];
  }
}
