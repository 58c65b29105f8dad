/**
 The token rules of the stateless masker (core/src/mask/mask.cpp, with the byte classes of
 core/src/scan/canon.detail.scan.cppm and the shell reader of core/src/scan/shell.cpp). Each rule is a
 function of one token; a rule that claims a token cuts it into pieces, and is proved to keep every byte
 outside the ranges its class allows.
 */
module MaskRules {
  import opened Wrappers
  import opened Text
  import opened MaskPieces
  import Transport

  // ----- byte classes -----

  predicate Alpha(c: char) {
    'a' <= c <= 'z' || 'A' <= c <= 'Z'
  }

  predicate Alnum(c: char) {
    Digit(c) || Alpha(c)
  }

  predicate HexChar(c: char) {
    Digit(c) || 'a' <= c <= 'f' || 'A' <= c <= 'F'
  }

  predicate DigitOrDot(c: char) {
    Digit(c) || c == '.'
  }

  const OPENERS := "[({<\"'"
  const CLOSERS := "])}>\"'"

  predicate WrapperOpen(c: char) {
    c in OPENERS
  }

  predicate WrapperClose(c: char) {
    c in CLOSERS
  }

  function CloserOf(open: char): char {
    match open
    case '[' => ']'
    case '(' => ')'
    case '{' => '}'
    case '<' => '>'
    case _ => open
  }

  predicate TrailingPunct(c: char) {
    c == ',' || c == ';' || c == ':' || c == '.'
  }

  predicate NoAlnum(s: string) {
    forall i :: 0 <= i < |s| ==> !Alnum(s[i])
  }

  /** A digit after an optional sign. */
  predicate DigitLeading(tok: string) {
    var pos := if tok != "" && (tok[0] == '+' || tok[0] == '-') then 1 else 0;
    pos < |tok| && Digit(tok[pos])
  }

  predicate SeparatorByte(c: char) {
    c == ':' || c == '/' || c == '#' || c == '-' || c == '=' || WrapperOpen(c) || WrapperClose(c)
  }

  predicate HasSeparator(tok: string) {
    exists i :: 0 <= i < |tok| && SeparatorByte(tok[i])
  }

  predicate AllDigit(s: string) {
    s != "" && AllDigits(s)
  }

  function LowerOf(c: char): char {
    if 'A' <= c <= 'Z' then (c as int - 'A' as int + 'a' as int) as char else c
  }

  predicate EqualsLower(tok: string, lower: string) {
    |tok| == |lower| && forall i :: 0 <= i < |tok| ==> LowerOf(tok[i]) == lower[i]
  }

  const MAX_STATUS_DIGITS := 3

  predicate StatusKeyword(tok: string) {
    EqualsLower(tok, "code") || EqualsLower(tok, "status") || EqualsLower(tok, "exit") || EqualsLower(tok, "signal")
  }

  // ----- shells -----

  /** The core of a complete wrapper shell: an opener, a core free of that pair's bytes, its closer, and at
      most two trailing punctuation bytes. */
  function ShellCore(tok: string): (core: Option<string>)
    ensures core.Some? ==> 1 + |core.value| < |tok| && core.value == tok[1..1 + |core.value|]
    ensures core.Some? ==> WrapperOpen(tok[0]) && tok[1 + |core.value|] == CloserOf(tok[0])
  {
    if |tok| < 3 || !WrapperOpen(tok[0]) then None
    else
      var n := |tok|;
      var end := if !TrailingPunct(tok[n - 1]) then n else if !TrailingPunct(tok[n - 2]) then n - 1 else n - 2;
      var close := CloserOf(tok[0]);
      if end < 3 || tok[end - 1] != close then None
      else
        var core := tok[1..end - 1];
        if tok[0] in core || close in core then None else Some(core)
  }

  predicate ShelledNumeric(tok: string, prev: string) {
    var core := ShellCore(tok);
    core.Some? && core.value != "" && Digit(core.value[0]) &&
    (!StatusKeyword(prev) || !AllDigit(core.value) || |core.value| > MAX_STATUS_DIGITS)
  }

  // ----- rule 4: addresses -----

  function OctetEnd(s: string, pos: nat): (e: Option<nat>)
    requires pos <= |s|
    ensures e.Some? ==> pos < e.value <= |s|
  {
    if pos >= |s| || !Digit(s[pos]) then None
    else if pos + 1 < |s| && Digit(s[pos + 1]) then
      if pos + 2 < |s| && Digit(s[pos + 2]) then Some(pos + 3) else Some(pos + 2)
    else Some(pos + 1)
  }

  /** The end of `count` dotted octets. */
  function OctetsEnd(s: string, pos: nat, count: nat): (e: Option<nat>)
    requires pos <= |s|
    ensures e.Some? ==> pos <= e.value <= |s|
    decreases count
  {
    if count == 0 then Some(pos)
    else
      var end :- OctetEnd(s, pos);
      if count == 1 then Some(end)
      else if end >= |s| || s[end] != '.' then None
      else OctetsEnd(s, end + 1, count - 1)
  }

  predicate ShellTail(c: char) {
    WrapperClose(c) || TrailingPunct(c)
  }

  predicate Ipv4Token(s: string) {
    if s == "" then false
    else
      var octets := OctetsEnd(s, if WrapperOpen(s[0]) then 1 else 0, 4);
      if octets.None? then false
      else
        var pos := if octets.value < |s| && s[octets.value] == ':' then RunEnd(s, octets.value + 1, Digit) else octets.value;
        |s| - pos <= 2 && Every(ShellTail, s[pos..])
  }

  // ----- rule 3: standalone identities -----

  const MIN_HASH := 16
  const UUID := 36

  predicate UuidByte(i: int, c: char) {
    if i == 8 || i == 13 || i == 18 || i == 23 then c == '-' else HexChar(c)
  }

  predicate UuidAt(tok: string, pos: nat) {
    pos + UUID <= |tok| && forall k :: pos <= k < pos + UUID ==> UuidByte(k - pos, tok[k])
  }

  predicate UuidOrLongHash(tok: string) {
    (|tok| == UUID && UuidAt(tok, 0)) || (|tok| >= MIN_HASH && Every(HexChar, tok))
  }

  // ----- the small composites -----

  predicate NumberRun(s: string) {
    s != "" && Digit(s[0]) && Every(DigitOrDot, s)
  }

  predicate IsStamp(s: string) {
    Transport.DatetimeLength("[" + s + "]", 1) == |s|
  }

  /** The last `c` in a text. */
  function LastOf(s: string, c: char): (r: Option<nat>)
    ensures r.Some? ==> r.value < |s| && s[r.value] == c && c !in s[r.value + 1..]
    ensures r.None? ==> c !in s
  {
    if s == "" then None
    else
      var n := |s| - 1;
      if s[n] == c then Some(n)
      else
        var r := LastOf(s[..n], c);
        assert s == s[..n] + [s[n]];
        assert r.Some? ==> s[r.value + 1..] == s[..n][r.value + 1..] + [s[n]];
        r
  }

  /** The first `c` at or after `from`. */
  function FirstOf(s: string, c: char, from: nat): (r: Option<nat>)
    requires from <= |s|
    ensures r.Some? ==> from <= r.value < |s| && s[r.value] == c && c !in s[from..(r.value)]
    decreases |s| - from
  {
    if from == |s| then None
    else if s[from] == c then Some(from)
    else
      var r := FirstOf(s, c, from + 1);
      assert r.Some? ==> s[from..r.value] == [s[from]] + s[from + 1..r.value];
      r
  }

  /** A rule that claims a token accounts for every byte of it and masks something, of its own class only. */
  predicate ClaimWf(class_: string -> bool, tok: string, claim: Option<seq<Piece>>) {
    claim.Some? ==> SourceOf(claim.value) == tok && Masks(claim.value) && MasksOnly(class_, claim.value)
  }

  function Ranged(tok: string, i: nat, j: nat): (claim: Option<seq<Piece>>)
    requires i < j <= |tok|
    ensures claim.Some? && SourceOf(claim.value) == tok && Masks(claim.value)
    ensures MasksOnly((s: string) => s == tok[i..j], claim.value)
  {
    MaskRangeSource(tok, i, j);
    Some(MaskRange(tok, i, j))
  }

  lemma {:induction false} RangedWf(class_: string -> bool, tok: string, i: nat, j: nat)
    requires i < j <= |tok| && class_(tok[i..j])
    ensures ClaimWf(class_, tok, Ranged(tok, i, j))
  {
    hide SourceOf;
  }

  function VersionedRef(tok: string): (claim: Option<seq<Piece>>)
    ensures ClaimWf(NumberRun, tok, claim)
  {
    var slash :- LastOf(tok, '/');
    if slash + 1 >= |tok| || !Digit(tok[slash + 1]) then None
    else
      var cursor := RunEnd(tok, slash + 1, DigitOrDot);
      if !NoAlnum(tok[cursor..]) then None
      else
        assert cursor > slash + 1;
        Ranged(tok, slash + 1, cursor)
  }

  lemma {:induction false} LastOfIs(s: string, c: char, k: nat)
    requires k < |s| && s[k] == c && c !in s[k + 1..]
    ensures LastOf(s, c) == Some(k)
  {
    var n := |s| - 1;
    if k < n {
      assert s[n] == s[k + 1..][n - k - 1];
      assert s[k + 1..] == s[..n][k + 1..] + [s[n]];
      LastOfIs(s[..n], c, k);
    }
  }

  /** A run of one class between two positions, ended by a byte of another. */
  lemma {:induction false} RunBetween(tok: string, i: nat, j: nat, ok: char -> bool)
    requires i <= j <= |tok| && Every(ok, tok[i..j]) && (j < |tok| ==> !ok(tok[j]))
    ensures RunEnd(tok, i, ok) == j
  {
    SliceIsAt(tok, i, j);
    RunExact(tok, i, ok, tok[i..j]);
  }

  lemma {:induction false} VersionEnd(tok: string, start: nat, end: nat)
    requires start <= end <= |tok| && Every(DigitOrDot, tok[start..end])
    requires (end < |tok| ==> tok[end] != '.') && NoAlnum(tok[end..])
    ensures RunEnd(tok, start, DigitOrDot) == end
  {
    hide Every, NoAlnum, RunEnd;
    NoAlnumAt(tok, end);
    RunBetween(tok, start, end, DigitOrDot);
  }

  /** A reference's version after its last slash: digits and dots, then no letter or digit. */
  lemma {:induction false} VersionedRefExactly(tok: string, slash: nat, end: nat)
    requires slash + 1 < end <= |tok| && tok[slash] == '/' && '/' !in tok[slash + 1..]
    requires Digit(tok[slash + 1]) && Every(DigitOrDot, tok[slash + 1..end]) && (end < |tok| ==> tok[end] != '.') && NoAlnum(tok[end..])
    ensures VersionedRef(tok) == Some(MaskRange(tok, slash + 1, end))
  {
    hide Every, NoAlnum, RunEnd, LastOf, DigitOrDot, ClaimWf, MaskRange, Masks, MasksOnly, SourceOf, Digit;
    LastOfIs(tok, '/', slash);
    VersionEnd(tok, slash + 1, end);
  }

  lemma {:induction false} NoAlnumAt(tok: string, end: nat)
    requires end <= |tok| && NoAlnum(tok[end..])
    ensures end < |tok| ==> !Alnum(tok[end])
  {
    if end < |tok| {
      assert tok[end..][0] == tok[end];
    }
  }

  function BracketTimestamp(tok: string): (claim: Option<seq<Piece>>)
    ensures ClaimWf(IsStamp, tok, claim)
  {
    if |tok| < 3 || tok[0] != '[' || tok[|tok| - 1] != ']' then None
    else
      var interior := Transport.DatetimeLength(tok, 1);
      if interior == 0 || interior + 2 != |tok| then None
      else
        assert "[" + tok[1..|tok| - 1] + "]" == tok;
        Ranged(tok, 1, |tok| - 1)
  }

  /** A bracketed datetime of the scanner's class is claimed whole, and nothing else is. */
  lemma {:induction false} BracketTimestampExactly(tok: string)
    ensures BracketTimestamp(tok).Some? <==>
            |tok| >= 3 && tok[0] == '[' && tok[|tok| - 1] == ']' && Transport.IsDatetime(tok[1..|tok| - 1])
  {
    hide Transport.DatetimeLength, Transport.IsDatetime;
    if |tok| >= 3 && tok[0] == '[' && tok[|tok| - 1] == ']' {
      var d := tok[1..|tok| - 1];
      if Transport.IsDatetime(d) {
        SliceIsAt(tok, 1, |tok| - 1);
        Transport.DatetimeComplete(tok, 1, d);
        Transport.DatetimeNotEmpty(d);
      }
      if Transport.DatetimeLength(tok, 1) == |tok| - 2 {
        Transport.DatetimeSound(tok, 1);
      }
    }
  }

  function BracketIndex(tok: string): (claim: Option<seq<Piece>>)
    ensures ClaimWf(AllDigit, tok, claim)
  {
    var open :- FirstOf(tok, '[', 0);
    if open + 1 >= |tok| then None
    else
      var digits := RunEnd(tok, open + 1, Alpha);
      var end := DigitsEnd(tok, digits);
      if end == digits || end >= |tok| || tok[end] != ']' then None else Ranged(tok, digits, end)
  }

  lemma {:induction false} FirstOfIs(s: string, c: char, from: nat, k: nat)
    requires from <= k < |s| && s[k] == c && forall i :: from <= i < k ==> s[i] != c
    ensures FirstOf(s, c, from) == Some(k)
    decreases k - from
  {
    if from < k {
      FirstOfIs(s, c, from + 1, k);
    }
  }

  /** The first bracket of a token, a class prefix of letters kept, the digits after it masked. */
  lemma {:induction false} BracketIndexExactly(tok: string, open: nat, at: nat, end: nat)
    requires open < at < end < |tok| && tok[open] == '[' && (forall i :: 0 <= i < open ==> tok[i] != '[')
    requires Every(Alpha, tok[open + 1..at]) && AllDigits(tok[at..end]) && tok[end] == ']'
    ensures BracketIndex(tok) == Some(MaskRange(tok, at, end))
  {
    FirstOfIs(tok, '[', 0, open);
    assert tok[at..end][0] == tok[at];
    RunBetween(tok, open + 1, at, Alpha);
    DigitsEndExact(tok, at, end);
    hide Every, RunEnd, FirstOf, DigitsEnd;
  }

  function BareCounterEnd(tok: string): (e: Option<nat>)
    ensures e.Some? ==> 1 < e.value <= |tok| && tok[0] == '#' && AllDigit(tok[1..(e.value)])
  {
    if |tok| < 2 || tok[0] != '#' || !Digit(tok[1]) then None
    else
      var end := DigitsEnd(tok, 1);
      if NoAlnum(tok[end..]) then Some(end) else None
  }

  function HashCounter(tok: string): (claim: Option<seq<Piece>>)
    ensures ClaimWf(AllDigit, tok, claim)
  {
    if BareCounterEnd(tok).Some? then Ranged(tok, 1, BareCounterEnd(tok).value)
    else
      var core :- ShellCore(tok);
      var end :- BareCounterEnd(core);
      ShelledClaim(tok, core, end);
      Ranged(tok, 2, 1 + end)
  }

  lemma {:induction false} ShelledClaim(tok: string, core: string, end: nat)
    requires 1 + |core| < |tok| && core == tok[1..1 + |core|] && 1 < end <= |core| && AllDigit(core[1..end])
    ensures ClaimWf(AllDigit, tok, Ranged(tok, 2, 1 + end))
  {
    hide AllDigit;
    SliceOfSlice(tok, 1, 1 + |core|, 1, end);
  }

  /** A counter: `#` kept, its digits masked, when no letter or digit follows them. */
  lemma {:induction false} HashCounterExactly(digits: string, rest: string)
    requires AllDigit(digits) && NoAlnum(rest)
    ensures HashCounter("#" + digits + rest) == Some(MaskRange("#" + digits + rest, 1, 1 + |digits|))
  {
    var tok := "#" + digits + rest;
    assert tok[1..1 + |digits|] == digits && tok[1 + |digits|..] == rest;
    assert tok[1] == digits[0];
    if rest != "" {
      assert tok[1 + |digits|] == rest[0];
    }
    DigitsEndExact(tok, 1, 1 + |digits|);
  }

  function MarkerPrefix(tok: string): nat {
    if |tok| > 1 && tok[0] == '$' then 1 else 0
  }

  function MarkerNumber(tok: string): (claim: Option<seq<Piece>>)
    ensures ClaimWf(NumberRun, tok, claim)
  {
    var marker := MarkerPrefix(tok);
    if marker == 0 || !Digit(tok[marker]) then None
    else
      var whole := DigitsEnd(tok, marker + 1);
      var fraction := if whole < |tok| && tok[whole] == '.' then DigitsEnd(tok, whole + 1) else whole;
      if (whole < |tok| && tok[whole] == '.' && fraction == whole + 1) || !NoAlnum(tok[fraction..]) then None
      else
        MarkerRun(tok, marker, whole, fraction);
        Ranged(tok, marker, fraction)
  }

  lemma {:induction false} MarkerRun(tok: string, marker: nat, whole: nat, fraction: nat)
    requires marker + 1 <= whole <= fraction <= |tok| && Digit(tok[marker]) && AllDigits(tok[marker + 1..whole])
    requires fraction > whole ==> tok[whole] == '.' && AllDigits(tok[whole + 1..fraction])
    ensures NumberRun(tok[marker..fraction])
  {
    forall i | 0 <= i < fraction - marker
      ensures DigitOrDot(tok[marker..fraction][i])
    {
      var k := marker + i;
      if marker < k < whole {
        assert tok[marker + 1..whole][k - marker - 1] == tok[k];
      } else if k > whole {
        assert tok[whole + 1..fraction][k - whole - 1] == tok[k];
      }
    }
  }

  /** A currency amount: the marker kept, digits and at most one fraction masked. */
  lemma {:induction false} MarkerNumberExactly(tok: string, whole: nat, end: nat)
    requires 1 < whole <= end <= |tok| && tok[0] == '$' && AllDigits(tok[1..whole]) && NoAlnum(tok[end..])
    requires whole == end ==> whole < |tok| ==> tok[whole] != '.'
    requires whole < end ==> tok[whole] == '.' && whole + 1 < end && AllDigits(tok[whole + 1..end])
    ensures MarkerNumber(tok) == Some(MaskRange(tok, 1, end))
  {
    assert tok[1..whole][0] == tok[1];
    assert tok[2..whole] == tok[1..whole][1..];
    NoAlnumAt(tok, end);
    DigitsEndExact(tok, 2, whole);
    if whole < end {
      DigitsEndExact(tok, whole + 1, end);
    }
    hide NoAlnum, DigitsEnd, AllDigits;
  }

  function SanitizerPid(tok: string): (claim: Option<seq<Piece>>)
    ensures ClaimWf(AllDigit, tok, claim)
  {
    if |tok| <= 2 || tok[..2] != "==" || !Digit(tok[2]) then None
    else
      var end := DigitsEnd(tok, 2);
      if end + 2 > |tok| || tok[end..end + 2] != "==" then None
      else if end + 2 < |tok| && !Alpha(tok[end + 2]) then None
      else Ranged(tok, 2, end)
  }

  /** A sanitizer's process tag: exactly the fence, digits, fence, then nothing or a letter. */
  lemma {:induction false} SanitizerPidExactly(pid: string, rest: string)
    requires AllDigit(pid) && (rest == "" || Alpha(rest[0]))
    ensures SanitizerPid("==" + pid + "==" + rest) == Some(MaskRange("==" + pid + "==" + rest, 2, 2 + |pid|))
  {
    var tok := "==" + pid + "==" + rest;
    assert tok[2..2 + |pid|] == pid;
    DigitsEndExact(tok, 2, 2 + |pid|);
    assert tok[2 + |pid|..4 + |pid|] == "==";
  }

  // ----- values after an equals sign -----

  predicate ExtentByte(c: char) {
    Alnum(c) || c == '.' || c == '_' || c == '+' || c == '%' || c == '-'
  }

  predicate ExtentJoint(c: char) {
    c == ',' || c == ':' || c == '/'
  }

  predicate WildcardAt(s: string, pos: nat) {
    pos <= |s| && WILDCARD <= s[pos..]
  }

  /** The end of a number's extent: extent bytes, wildcards read whole, and joints a digit or a wildcard
      follows. */
  function ExtentEnd(value: string, pos: nat): (e: nat)
    requires pos <= |value|
    ensures pos <= e <= |value|
    decreases |value| - pos
  {
    if pos == |value| then pos
    else if WildcardAt(value, pos) then ExtentEnd(value, pos + 3)
    else if ExtentByte(value[pos]) ||
            (ExtentJoint(value[pos]) && pos + 1 < |value| && (Digit(value[pos + 1]) || WildcardAt(value, pos + 1)))
    then ExtentEnd(value, pos + 1)
    else pos
  }

  /** `append_masked_value` on a key, with the value starting at `start`: the range of `text` it masks. */
  function MaskedValue(text: string, keyStart: nat, start: nat): (range: Option<(nat, nat)>)
    requires keyStart < start <= |text|
    ensures range.Some? ==> start <= range.value.0 < range.value.1 <= |text| && DigitLeading(text[range.value.0..(range.value.1)])
  {
    var from := start + MarkerPrefix(text[start..]);
    var value := text[from..];
    if !DigitLeading(value) then None
    else
      var length := ExtentEnd(value, 0);
      ExtentNotEmpty(value);
      if StatusKeyword(text[keyStart..start - 1]) && AllDigit(value[..length]) && length <= MAX_STATUS_DIGITS then None
      else
        var end := if Every(ShellTail, value[length..]) then |text| else from + length;
        LeadingKept(text, from, from + length, end);
        Some((from, end))
  }

  lemma {:induction false} ExtentNotEmpty(value: string)
    requires DigitLeading(value)
    ensures var e := ExtentEnd(value, 0); e > 0 && DigitLeading(value[..e])
  {
    if !Digit(value[0]) {
      assert ExtentEnd(value, 0) == ExtentEnd(value, 1);
      assert Digit(value[1]);
      assert !WildcardAt(value, 1);
    }
  }

  lemma {:induction false} LeadingKept(text: string, from: nat, mid: nat, end: nat)
    requires from < mid <= end <= |text| && DigitLeading(text[from..][..mid - from])
    ensures DigitLeading(text[from..end])
  {
    var a, b := text[from..][..mid - from], text[from..end];
    assert forall i :: 0 <= i < |a| ==> a[i] == b[i];
  }

  function KvValue(tok: string): (claim: Option<seq<Piece>>)
    ensures ClaimWf(DigitLeading, tok, claim)
  {
    var eq :- FirstOf(tok, '=', 0);
    if eq == 0 then None
    else
      var range :- MaskedValue(tok, 0, eq + 1);
      Ranged(tok, range.0, range.1)
  }

  // ----- embedded identities -----

  const INSTANT := 18

  predicate InstantByte(i: int, c: char) {
    if i == 4 || i == 7 then c == '-' else if i == 10 then c == 'T' else if i == 17 then c == 'Z' else Digit(c)
  }

  predicate InstantShape(tok: string, pos: nat) {
    pos + INSTANT <= |tok| && forall k :: pos <= k < pos + INSTANT ==> InstantByte(k - pos, tok[k])
  }

  predicate InstantAt(tok: string, pos: nat) {
    InstantShape(tok, pos) && !(pos > 0 && Alnum(tok[pos - 1])) && !(pos + INSTANT < |tok| && Alnum(tok[pos + INSTANT]))
  }

  predicate Identity(s: string) {
    (|s| == UUID && UuidAt(s, 0)) || (|s| == INSTANT && InstantShape(s, 0)) || (|s| >= MIN_HASH && Every(HexChar, s))
  }

  /** The end of the identity that starts at `pos`: a UUID, a compact instant, or a maximal long hex run. */
  function IdentityEnd(tok: string, pos: nat): (e: Option<nat>)
    requires pos < |tok|
    ensures e.Some? ==> pos < e.value <= |tok| && Identity(tok[pos..(e.value)])
  {
    if UuidAt(tok, pos) then
      UuidCut(tok, pos);
      Some(pos + UUID)
    else if InstantAt(tok, pos) then
      InstantCut(tok, pos);
      Some(pos + INSTANT)
    else if HexChar(tok[pos]) && (pos == 0 || !HexChar(tok[pos - 1])) then
      var end := RunEnd(tok, pos, HexChar);
      if end - pos >= MIN_HASH then Some(end) else None
    else None
  }

  lemma {:induction false} UuidCut(tok: string, pos: nat)
    requires UuidAt(tok, pos)
    ensures Identity(tok[pos..pos + UUID])
  {
    var s := tok[pos..pos + UUID];
    forall k | 0 <= k < UUID
      ensures UuidByte(k - 0, s[k])
    {
      assert UuidByte(pos + k - pos, tok[pos + k]);
    }
    assert UuidAt(s, 0);
  }

  lemma {:induction false} InstantCut(tok: string, pos: nat)
    requires InstantShape(tok, pos)
    ensures Identity(tok[pos..pos + INSTANT])
  {
    var s := tok[pos..pos + INSTANT];
    forall k | 0 <= k < INSTANT
      ensures InstantByte(k - 0, s[k])
    {
      assert InstantByte(pos + k - pos, tok[pos + k]);
    }
    assert InstantShape(s, 0);
  }

  function IdentityPieces(tok: string, pos: nat): (ps: seq<Piece>)
    requires pos <= |tok|
    ensures SourceOf(ps) == tok[pos..] && MasksOnly(Identity, ps)
    decreases |tok| - pos
  {
    if pos == |tok| then []
    else
      match IdentityEnd(tok, pos)
      case Some(end) =>
        ConsPiece(Masked(tok[pos..end]), IdentityPieces(tok, end), Identity);
        assert tok[pos..] == tok[pos..end] + tok[end..];
        [Masked(tok[pos..end])] + IdentityPieces(tok, end)
      case None =>
        ConsPiece(Kept([tok[pos]]), IdentityPieces(tok, pos + 1), Identity);
        [Kept([tok[pos]])] + IdentityPieces(tok, pos + 1)
  }

  lemma {:induction false} ConsPiece(p: Piece, ps: seq<Piece>, class_: string -> bool)
    requires MasksOnly(class_, ps) && (p.Masked? ==> p.text != "" && class_(p.text))
    ensures SourceOf([p] + ps) == p.text + SourceOf(ps) && MasksOnly(class_, [p] + ps)
    ensures Masks([p] + ps) <==> p.Masked? || Masks(ps)
  {
    assert ([p] + ps)[1..] == ps;
    if Masks(ps) {
      var i :| 0 <= i < |ps| && ps[i].Masked?;
      assert ([p] + ps)[i + 1].Masked?;
    }
    if p.Masked? {
      assert ([p] + ps)[0].Masked?;
    }
    if Masks([p] + ps) {
      var i :| 0 <= i < |ps| + 1 && ([p] + ps)[i].Masked?;
      if i > 0 {
        assert ps[i - 1].Masked?;
      }
    }
  }

  function EmbeddedIdentity(tok: string): (claim: Option<seq<Piece>>)
    ensures ClaimWf(Identity, tok, claim)
  {
    var ps := IdentityPieces(tok, 0);
    assert tok[0..] == tok;
    if Masks(ps) then Some(ps) else None
  }

  /** The ranges of the source that pieces cut from position `at` on mask. */
  function MaskedRanges(ps: seq<Piece>, at: nat): seq<(nat, nat)> {
    if ps == [] then []
    else (if ps[0].Masked? then [(at, at + |ps[0].text|)] else []) + MaskedRanges(ps[1..], at + |ps[0].text|)
  }

  /** One of the three identity shapes stands in the token from `first` to `last`. */
  predicate IdentityStands(tok: string, first: nat, last: nat)
    requires first < last <= |tok|
  {
    || (last - first == UUID && UuidAt(tok, first))
    || (last - first == INSTANT && InstantAt(tok, first))
    || (last - first >= MIN_HASH && Every(HexChar, tok[first..last]) &&
        (first > 0 ==> !HexChar(tok[first - 1])) && (last < |tok| ==> !HexChar(tok[last])))
  }

  lemma {:induction false} IdentityEndIs(tok: string, first: nat, last: nat)
    requires first < last <= |tok| && IdentityStands(tok, first, last)
    ensures IdentityEnd(tok, first) == Some(last)
  {
    hide Identity, RunEnd;
    if UuidAt(tok, first) {
      assert UuidByte(4, tok[first + 4]) && UuidByte(8, tok[first + 8]);
      NoHexRun(tok, first, last, 8);
    } else if InstantAt(tok, first) {
      assert InstantByte(4, tok[first + 4]);
      NoHexRun(tok, first, last, 4);
    } else {
      RunBetween(tok, first, last, HexChar);
      assert tok[first..last][0] == tok[first];
    }
  }

  lemma {:induction false} NoHexRun(tok: string, first: nat, last: nat, at: nat)
    requires first + at < last <= |tok| && tok[first + at] == '-'
    ensures !Every(HexChar, tok[first..last])
  {
    assert tok[first..last][at] == '-';
  }

  /** Every identity in the token is masked as one range, unless one that starts earlier reaches into it. */
  lemma {:induction false} IdentityIsMasked(tok: string, from: nat, first: nat, last: nat)
    requires from <= first < last <= |tok| && IdentityStands(tok, first, last)
    ensures var ranges := MaskedRanges(IdentityPieces(tok, from), from);
      (first, last) in ranges || exists r :: r in ranges && r.0 < first < r.1
    decreases first - from
  {
    hide IdentityStands, IdentityEnd, Identity, SourceOf, MasksOnly;
    var ps := IdentityPieces(tok, from);
    IdentityEndIs(tok, first, last);
    RangesFrom(tok, from);
    match IdentityEnd(tok, from)
    case None => IdentityIsMasked(tok, from + 1, first, last);
    case Some(end) =>
      if end <= first {
        IdentityIsMasked(tok, end, first, last);
      } else if from < first {
        var r := (from, end);
        assert r in MaskedRanges(ps, from) && r.0 < first < r.1;
      }
  }

  lemma {:induction false} RangesFrom(tok: string, from: nat)
    requires from < |tok|
    ensures MaskedRanges(IdentityPieces(tok, from), from) ==
      match IdentityEnd(tok, from)
      case None => MaskedRanges(IdentityPieces(tok, from + 1), from + 1)
      case Some(end) => [(from, end)] + MaskedRanges(IdentityPieces(tok, end), end)
  {
    hide IdentityEnd, Identity, SourceOf, MasksOnly;
    var ps := IdentityPieces(tok, from);
    match IdentityEnd(tok, from)
    case None =>
      assert ps[1..] == IdentityPieces(tok, from + 1);
      assert [] + MaskedRanges(ps[1..], from + 1) == MaskedRanges(ps[1..], from + 1);
    case Some(end) => assert ps[1..] == IdentityPieces(tok, end);
  }

  /** A token that is one identity is masked whole. */
  lemma {:induction false} IdentityAlone(tok: string)
    requires tok != "" && IdentityStands(tok, 0, |tok|)
    ensures EmbeddedIdentity(tok) == Some([Masked(tok)])
  {
    hide IdentityStands, IdentityEnd, Identity, MasksOnly, SourceOf;
    IdentityEndIs(tok, 0, |tok|);
    assert IdentityPieces(tok, |tok|) == [];
    assert tok[0..|tok|] == tok && [Masked(tok)] + [] == [Masked(tok)];
    assert [Masked(tok)][0].Masked?;
  }

  // ----- the rules as loops over the token -----

  lemma {:induction false} RangeAnswers(tok: string, i: nat, j: nat)
    requires i < j <= |tok|
    ensures Answers(Ranged(tok, i, j), true, tok[..i] + WILDCARD + tok[j..])
  {
    MaskRangeSource(tok, i, j);
  }

  /** The closing test of several rules: no letter or digit from `start` on. */
  method NoAlnumFrom(tok: string, start: nat) returns (ok: bool)
    requires start <= |tok|
    ensures ok <==> NoAlnum(tok[start..])
  {
    var pos := start;
    while pos < |tok|
      invariant start <= pos <= |tok| && forall i :: start <= i < pos ==> !Alnum(tok[i])
    {
      if Alnum(tok[pos]) {
        assert Alnum(tok[start..][pos - start]);
        return false;
      }
      pos := pos + 1;
    }
    return true;
  }

  lemma {:induction false} VersionedRefIs(tok: string, slash: nat)
    requires LastOf(tok, '/') == Some(slash) && slash + 1 < |tok| && Digit(tok[slash + 1])
    ensures var cursor := RunEnd(tok, slash + 1, DigitOrDot);
      slash + 1 < cursor && VersionedRef(tok) == if NoAlnum(tok[cursor..]) then Ranged(tok, slash + 1, cursor) else None
  {
    hide NoAlnum, LastOf, Every, Masks, MasksOnly, ClaimWf, SourceOf;
  }

  lemma {:induction false} VersionedRefGuard(tok: string)
    ensures var slash := LastOf(tok, '/');
      slash.None? || slash.value + 1 >= |tok| || !Digit(tok[slash.value + 1]) ==> VersionedRef(tok) == None
  {
    hide LastOf, NoAlnum, RunEnd, Every, Masks, MasksOnly, ClaimWf, SourceOf, Ranged;
  }

  /** `normalize_versioned_ref`. */
  method NormalizeVersionedRef(tok: string) returns (claimed: bool, out: string)
    ensures Answers(VersionedRef(tok), claimed, out)
  {
    hide VersionedRef, NoAlnum, LastOf, RunEnd, Every, Masks, MasksOnly, ClaimWf, SourceOf, Ranged, Digit;
    claimed, out := false, "";
    VersionedRefGuard(tok);
    var slash := LastOf(tok, '/');
    if slash.None? || slash.value + 1 >= |tok| || !Digit(tok[slash.value + 1]) {
      return;
    }
    VersionedRefIs(tok, slash.value);
    var cursor := SkipRun(tok, slash.value + 1, DigitOrDot);
    var ends := NoAlnumFrom(tok, cursor);
    if ends {
      claimed, out := true, tok[..slash.value + 1] + WILDCARD + tok[cursor..];
      RangeAnswers(tok, slash.value + 1, cursor);
    }
  }

  lemma {:induction false} BracketTimestampIs(tok: string)
    requires |tok| >= 3 && tok[0] == '[' && tok[|tok| - 1] == ']'
    ensures var interior := Transport.DatetimeLength(tok, 1);
      if interior == 0 || interior + 2 != |tok| then BracketTimestamp(tok) == None
      else Answers(BracketTimestamp(tok), true, "[" + WILDCARD + "]")
  {
    hide IsStamp, SourceOf, Masks, MasksOnly, ClaimWf;
    RangeAnswers(tok, 1, |tok| - 1);
    assert tok[..1] == "[" && tok[|tok| - 1..] == "]";
  }

  /** `normalize_bracket_timestamp`. */
  method NormalizeBracketTimestamp(tok: string) returns (claimed: bool, out: string)
    ensures Answers(BracketTimestamp(tok), claimed, out)
  {
    claimed, out := false, "";
    if |tok| < 3 || tok[0] != '[' || tok[|tok| - 1] != ']' {
      return;
    }
    hide BracketTimestamp, Rendered;
    BracketTimestampIs(tok);
    var interior := Transport.Rfc3339DatetimeLength(tok, 1);
    if interior != 0 && interior + 2 == |tok| {
      claimed, out := true, "[" + WILDCARD + "]";
    }
  }

  lemma {:induction false} BracketIndexIs(tok: string, open: nat)
    requires FirstOf(tok, '[', 0) == Some(open) && open + 1 < |tok|
    ensures var digits := RunEnd(tok, open + 1, Alpha);
      var end := DigitsEnd(tok, digits);
      BracketIndex(tok) == if end == digits || end >= |tok| || tok[end] != ']' then None else Ranged(tok, digits, end)
  {
    hide FirstOf, Every, Masks, MasksOnly, ClaimWf, SourceOf, AllDigit, AllDigits;
  }

  lemma {:induction false} BracketIndexGuard(tok: string)
    ensures var open := FirstOf(tok, '[', 0); open.None? || open.value + 1 >= |tok| ==> BracketIndex(tok) == None
  {
    hide FirstOf, RunEnd, DigitsEnd, Every, AllDigits, Masks, MasksOnly, ClaimWf, SourceOf, Ranged;
  }

  /** `normalize_bracket_index`. */
  method NormalizeBracketIndex(tok: string) returns (claimed: bool, out: string)
    ensures Answers(BracketIndex(tok), claimed, out)
  {
    hide BracketIndex, FirstOf, RunEnd, DigitsEnd, Every, AllDigits, Masks, MasksOnly, ClaimWf, SourceOf, Ranged;
    claimed, out := false, "";
    BracketIndexGuard(tok);
    var open := FirstOf(tok, '[', 0);
    if open.None? || open.value + 1 >= |tok| {
      return;
    }
    BracketIndexIs(tok, open.value);
    var cursor := SkipRun(tok, open.value + 1, Alpha);
    var prefix := tok[open.value + 1..cursor];
    var end := SkipDigits(tok, cursor);
    if end != cursor && end < |tok| && tok[end] == ']' {
      claimed, out := true, tok[..open.value + 1] + prefix + WILDCARD + tok[end..];
      RangeAnswers(tok, cursor, end);
      assert tok[..open.value + 1] + prefix == tok[..cursor];
    }
  }

  /** `bare_hash_counter_end`. */
  method BareHashCounterEnd(tok: string) returns (end: Option<nat>)
    ensures end == BareCounterEnd(tok)
  {
    if |tok| < 2 || tok[0] != '#' || !Digit(tok[1]) {
      return None;
    }
    var cursor := SkipDigits(tok, 1);
    var ends := NoAlnumFrom(tok, cursor);
    return if ends then Some(cursor) else None;
  }

  lemma {:induction false} HashCounterIs(tok: string)
    ensures HashCounter(tok) ==
      if BareCounterEnd(tok).Some? then Ranged(tok, 1, BareCounterEnd(tok).value)
      else if ShellCore(tok).None? || BareCounterEnd(ShellCore(tok).value).None? then None
      else Ranged(tok, 2, 1 + BareCounterEnd(ShellCore(tok).value).value)
  {
    hide BareCounterEnd, ShellCore, AllDigit, Ranged, ClaimWf;
  }

  /** `normalize_hash_counter`: the bare reading first, then the reading inside a shell. */
  method NormalizeHashCounter(tok: string) returns (claimed: bool, out: string)
    ensures Answers(HashCounter(tok), claimed, out)
  {
    hide HashCounter, BareCounterEnd, ShellCore, AllDigit, Ranged, ClaimWf, Masks, MasksOnly, SourceOf;
    HashCounterIs(tok);
    claimed, out := false, "";
    var coreAt := 0;
    var digitsEnd := BareHashCounterEnd(tok);
    if digitsEnd.None? {
      var core := ShellCore(tok);
      if core.None? {
        return;
      }
      digitsEnd := BareHashCounterEnd(core.value);
      if digitsEnd.None? {
        return;
      }
      coreAt := 1;
    }
    claimed, out := true, tok[..coreAt] + "#<*>" + tok[coreAt + digitsEnd.value..];
    CounterKept(tok, coreAt, coreAt + digitsEnd.value);
  }

  lemma {:induction false} CounterKept(tok: string, at: nat, end: nat)
    requires at + 1 < end <= |tok| && tok[at] == '#'
    ensures Answers(Ranged(tok, at + 1, end), true, tok[..at] + "#<*>" + tok[end..])
  {
    RangeAnswers(tok, at + 1, end);
    assert tok[..at + 1] + WILDCARD == tok[..at] + "#<*>";
  }

  /** `normalize_marker_number`. */
  method NormalizeMarkerNumber(tok: string) returns (claimed: bool, out: string)
    ensures Answers(MarkerNumber(tok), claimed, out)
  {
    hide NoAlnum;
    claimed, out := false, "";
    var marker := MarkerPrefix(tok);
    if marker == 0 || !Digit(tok[marker]) {
      return;
    }
    var cursor := SkipDigits(tok, marker + 1);
    if cursor < |tok| && tok[cursor] == '.' {
      var fraction := cursor + 1;
      cursor := SkipDigits(tok, fraction);
      if cursor == fraction {
        return;
      }
    }
    var ends := NoAlnumFrom(tok, cursor);
    if ends {
      claimed, out := true, tok[..marker] + WILDCARD + tok[cursor..];
      RangeAnswers(tok, marker, cursor);
    }
  }

  /** `normalize_embedded_identity`: identities are passed whole, every other byte is copied. */
  method NormalizeEmbeddedIdentity(tok: string) returns (masked: bool, out: string)
    ensures Answers(EmbeddedIdentity(tok), masked, out)
  {
    hide IdentityEnd, Identity;
    masked, out := false, "";
    var pos := 0;
    while pos < |tok|
      invariant pos <= |tok|
      invariant out + Rendered(IdentityPieces(tok, pos)) == Rendered(IdentityPieces(tok, 0))
      invariant masked || Masks(IdentityPieces(tok, pos)) <==> Masks(IdentityPieces(tok, 0))
    {
      IdentityTurn(tok, pos, out);
      match IdentityEnd(tok, pos) {
        case Some(end) =>
          out := out + WILDCARD;
          pos := end;
          masked := true;
        case None =>
          out := out + [tok[pos]];
          pos := pos + 1;
      }
    }
    assert out + "" == out;
  }

  lemma {:induction false} IdentityTurn(tok: string, pos: nat, out: string)
    requires pos < |tok|
    ensures var shown := if IdentityEnd(tok, pos).Some? then WILDCARD else [tok[pos]];
      var next := if IdentityEnd(tok, pos).Some? then IdentityEnd(tok, pos).value else pos + 1;
      && next <= |tok| && (out + shown) + Rendered(IdentityPieces(tok, next)) == out + Rendered(IdentityPieces(tok, pos))
      && (Masks(IdentityPieces(tok, pos)) <==> IdentityEnd(tok, pos).Some? || Masks(IdentityPieces(tok, next)))
  {
    hide IdentityEnd, Identity;
    match IdentityEnd(tok, pos)
    case Some(end) =>
      OneMore(Masked(tok[pos..end]), IdentityPieces(tok, end), out);
    case None =>
      OneMore(Kept([tok[pos]]), IdentityPieces(tok, pos + 1), out);
  }

  lemma {:induction false} OneMore(p: Piece, ps: seq<Piece>, out: string)
    ensures (out + Shown(p)) + Rendered(ps) == out + Rendered([p] + ps)
    ensures Masks([p] + ps) <==> p.Masked? || Masks(ps)
  {
    OnePiece(p);
    RenderedConcat([p], ps);
    MasksConcat([p], ps);
    assert Masks([p]) <==> p.Masked? by {
      assert [p][0] == p;
    }
    Joins(out, Shown(p), Rendered(ps));
  }

  /** `normalize_sanitizer_pid`. */
  method NormalizeSanitizerPid(tok: string) returns (claimed: bool, out: string)
    ensures Answers(SanitizerPid(tok), claimed, out)
  {
    claimed, out := false, "";
    if |tok| <= 2 || tok[..2] != "==" || !Digit(tok[2]) {
      return;
    }
    var end := SkipDigits(tok, 2);
    if end + 2 > |tok| || tok[end..end + 2] != "==" {
      return;
    }
    var cursor := end + 2;
    if cursor < |tok| && !Alpha(tok[cursor]) {
      return;
    }
    claimed, out := true, "==" + WILDCARD + "==" + tok[cursor..];
    hide SanitizerPid, Answers, Ranged;
    RangeAnswers(tok, 2, end);
    FencesKept(tok, end);
  }

  lemma {:induction false} FencesKept(tok: string, end: nat)
    requires 2 <= end && end + 2 <= |tok| && tok[..2] == "==" && tok[end..end + 2] == "=="
    ensures tok[..2] + WILDCARD + tok[end..] == "==" + WILDCARD + "==" + tok[end + 2..]
  {
    assert tok[end..] == tok[end..end + 2] + tok[end + 2..];
  }

  /** `value_extent`: its length, and whether the remainder is swallowed. */
  method ValueExtent(value: string) returns (length: nat, swallows: bool)
    ensures length == ExtentEnd(value, 0) && swallows == Every(ShellTail, value[length..])
  {
    length := 0;
    while length < |value|
      invariant length <= |value| && ExtentEnd(value, length) == ExtentEnd(value, 0)
    {
      if WildcardAt(value, length) {
        length := length + 3;
      } else if ExtentByte(value[length]) ||
                (ExtentJoint(value[length]) && length + 1 < |value| && (Digit(value[length + 1]) || WildcardAt(value, length + 1))) {
        length := length + 1;
      } else {
        break;
      }
    }
    swallows := Every(ShellTail, value[length..]);
  }

  lemma {:induction false} MaskedValueIs(text: string, keyStart: nat, start: nat, from: nat, length: nat)
    requires keyStart < start <= |text| && from == start + MarkerPrefix(text[start..]) && DigitLeading(text[from..])
    requires length == ExtentEnd(text[from..], 0)
    ensures MaskedValue(text, keyStart, start) ==
      if StatusKeyword(text[keyStart..start - 1]) && AllDigit(text[from..][..length]) && length <= MAX_STATUS_DIGITS then None
      else Some((from, if Every(ShellTail, text[from..][length..]) then |text| else from + length))
  {
    hide ExtentEnd, StatusKeyword, AllDigit, Every;
  }

  /** `append_masked_value`, on a key from `keyStart` and a value from `start`: the text with its value
      masked appended to `before`, or nothing appended. */
  method AppendMaskedValue(text: string, keyStart: nat, start: nat, before: string) returns (masked: bool, out: string)
    requires keyStart < start <= |text|
    ensures masked == MaskedValue(text, keyStart, start).Some?
    ensures out == match MaskedValue(text, keyStart, start)
      case None => before
      case Some(range) => before + (text[..range.0] + WILDCARD + text[range.1..])
  {
    masked, out := false, before;
    var raw := text[start..];
    var marker := MarkerPrefix(raw);
    var value := raw[marker..];
    ghost var from := start + marker;
    assert value == text[from..];
    if !DigitLeading(value) {
      return;
    }
    hide MaskedValue, ExtentEnd, StatusKeyword, AllDigit, Every, DigitLeading, MarkerPrefix;
    var length, swallows := ValueExtent(value);
    MaskedValueIs(text, keyStart, start, from, length);
    if StatusKeyword(text[keyStart..start - 1]) && AllDigit(value[..length]) && length <= MAX_STATUS_DIGITS {
      return;
    }
    var tail := if swallows then "" else value[length..];
    masked, out := true, before + text[..start] + raw[..marker] + WILDCARD + tail;
    HeadAndMarker(text, start, marker, before, tail);
    assert tail == text[if swallows then |text| else from + length..];
  }

  lemma {:induction false} HeadAndMarker(text: string, start: nat, marker: nat, before: string, tail: string)
    requires start + marker <= |text|
    ensures before + text[..start] + text[start..][..marker] + WILDCARD + tail ==
            before + (text[..start + marker] + WILDCARD + tail)
  {
    assert text[..start] + text[start..][..marker] == text[..start + marker];
  }

  /** `normalize_kv_value`. */
  method NormalizeKvValue(tok: string) returns (claimed: bool, out: string)
    ensures Answers(KvValue(tok), claimed, out)
  {
    hide MaskedValue;
    claimed, out := false, "";
    var eq := FirstOf(tok, '=', 0);
    if eq.None? || eq.value == 0 {
      return;
    }
    claimed, out := AppendMaskedValue(tok, 0, eq.value + 1, "");
    if claimed {
      var range := MaskedValue(tok, 0, eq.value + 1).value;
      RangeAnswers(tok, range.0, range.1);
    }
  }
}
