/**
 The identity of a named step (core/src/identity/intent_identity.cpp): its class, the name with every
 version, number and parenthesis masked, and its discriminant, the envelope of what was masked. Two
 separate loops compute them; both are proved to claim the same spans.
 */
module Intent {
  import opened Wrappers
  import opened Text

  /** What stands for a masked text; the wildcard is the one declared values take. */
  datatype Mask = VersionMask | DigitMask | ParenMask | WildcardMask

  function MaskText(m: Mask): (t: string)
    ensures t != ""
  {
    match m
    case VersionMask => "vX"
    case DigitMask => "N"
    case ParenMask => "(M)"
    case WildcardMask => "<*>"
  }

  predicate IsWord(c: char) {
    'a' <= c <= 'z' || 'A' <= c <= 'Z' || Digit(c) || c == '_'
  }

  predicate BoundaryAfter(s: string, pos: nat) {
    pos >= |s| || !IsWord(s[pos])
  }

  predicate WordBefore(s: string, pos: nat) {
    0 < pos <= |s| && IsWord(s[pos - 1])
  }

  // ----- trimming -----

  predicate TrimByte(c: char) {
    c == ' ' || c == '\t'
  }

  predicate AllTrim(s: string) {
    forall i :: 0 <= i < |s| ==> TrimByte(s[i])
  }

  function TrimmedRight(s: string): (r: string)
    ensures |r| <= |s|
  {
    if s != "" && TrimByte(s[|s| - 1]) then TrimmedRight(s[..|s| - 1]) else s
  }

  function TrimmedLeft(s: string): (r: string)
    ensures |r| <= |s|
  {
    if s != "" && TrimByte(s[0]) then TrimmedLeft(s[1..]) else s
  }

  function Trimmed(s: string): string {
    TrimmedRight(TrimmedLeft(s))
  }

  predicate IsTrimmed(s: string) {
    s == "" || (!TrimByte(s[0]) && !TrimByte(s[|s| - 1]))
  }

  lemma {:induction false} RightTrimmed(s: string) returns (after: string)
    ensures s == TrimmedRight(s) + after && AllTrim(after)
    ensures TrimmedRight(s) != "" ==> !TrimByte(TrimmedRight(s)[|TrimmedRight(s)| - 1])
  {
    if s != "" && TrimByte(s[|s| - 1]) {
      var rest := RightTrimmed(s[..|s| - 1]);
      after := rest + [s[|s| - 1]];
      SplitAt(s, |s| - 1);
      Reassociate(TrimmedRight(s), rest, [s[|s| - 1]]);
    } else {
      after := "";
    }
  }

  lemma {:induction false} LeftTrimmed(s: string) returns (before: string)
    ensures s == before + TrimmedLeft(s) && AllTrim(before)
    ensures TrimmedLeft(s) != "" ==> !TrimByte(TrimmedLeft(s)[0])
  {
    if s != "" && TrimByte(s[0]) {
      var rest := LeftTrimmed(s[1..]);
      before := [s[0]] + rest;
      SplitAt(s, 1);
      Reassociate([s[0]], rest, TrimmedLeft(s));
    } else {
      before := "";
    }
  }

  /** Trimming takes spaces and tabs off both ends, all of them, and nothing else. */
  lemma {:induction false} TrimmedIs(s: string) returns (before: string, after: string)
    ensures s == before + Trimmed(s) + after
    ensures forall i :: 0 <= i < |before| ==> before[i] == ' ' || before[i] == '\t'
    ensures forall i :: 0 <= i < |after| ==> after[i] == ' ' || after[i] == '\t'
    ensures var t := Trimmed(s); t != "" ==> t[0] != ' ' && t[0] != '\t' && t[|t| - 1] != ' ' && t[|t| - 1] != '\t'
    ensures IsTrimmed(Trimmed(s))
  {
    hide TrimmedLeft, TrimmedRight;
    var left := TrimmedLeft(s);
    before := LeftTrimmed(s);
    after := RightTrimmed(left);
    Reassociate(before, Trimmed(s), after);
    assert Trimmed(s) != "" ==> Trimmed(s)[0] == (Trimmed(s) + after)[0];
  }

  lemma {:induction false} SplitAt(s: string, k: nat)
    requires k <= |s|
    ensures s == s[..k] + s[k..]
  {
  }

  lemma {:induction false} Reassociate(x: string, y: string, z: string)
    ensures (x + y) + z == x + (y + z)
  {
  }

  lemma {:induction false} TrimmedFixed(s: string)
    requires IsTrimmed(s)
    ensures Trimmed(s) == s
  {
  }

  // ----- the rules -----

  datatype Claim = Claim(mask: Mask, end: nat)

  /** The end of the dotted digit groups that follow `pos`. */
  function DotEnd(s: string, pos: nat): (end: nat)
    ensures pos <= end && (pos <= |s| ==> end <= |s|)
    decreases |s| - pos
  {
    if pos + 1 < |s| && s[pos] == '.' && Digit(s[pos + 1]) then DotEnd(s, DigitsEnd(s, pos + 1)) else pos
  }

  function NumericAt(s: string, start: nat): (c: Option<Claim>)
    requires start < |s|
    ensures c.Some? ==> start < c.value.end <= |s|
  {
    var hasV := s[start] == 'v';
    var digits := if hasV then start + 1 else start;
    var pos := DigitsEnd(s, digits);
    if pos == digits then None
    else
      var dotEnd := DotEnd(s, pos);
      if dotEnd > pos && BoundaryAfter(s, dotEnd) then Some(Claim(VersionMask, dotEnd))
      else if hasV && BoundaryAfter(s, pos) then Some(Claim(VersionMask, pos))
      else if !hasV && pos - digits >= 2 && BoundaryAfter(s, pos) then Some(Claim(DigitMask, pos))
      else None
  }

  /** The first `c` at or after `from`. */
  function Find(s: string, c: char, from: nat): (r: Option<nat>)
    ensures r.Some? ==> from <= r.value < |s| && s[r.value] == c && c !in s[from..(r.value)]
    ensures r.None? && from <= |s| ==> c !in s[from..]
    decreases |s| - from
  {
    if from >= |s| then None
    else if s[from] == c then Some(from)
    else
      var r := Find(s, c, from + 1);
      assert s[from..] == [s[from]] + s[from + 1..];
      assert r.Some? ==> s[from..r.value] == [s[from]] + s[from + 1..r.value];
      r
  }

  /** What the rules claim at a position: a parenthesis that closes, or a numeric token that no word
      character precedes. */
  function RuleAt(s: string, at: nat): (c: Option<Claim>)
    requires at < |s|
    ensures c.Some? ==> at < c.value.end <= |s|
  {
    if s[at] == '(' && Find(s, ')', at + 1).Some? then Some(Claim(ParenMask, Find(s, ')', at + 1).value + 1))
    else if !WordBefore(s, at) && (s[at] == 'v' || Digit(s[at])) then NumericAt(s, at)
    else None
  }

  /** `claim_numeric`. */
  method ClaimNumeric(s: string, start: nat) returns (claim: Option<Claim>)
    requires start < |s|
    ensures claim == NumericAt(s, start)
  {
    var pos := start;
    var hasV := s[pos] == 'v';
    if hasV {
      pos := pos + 1;
    }
    var digits := pos;
    pos := SkipDigits(s, pos);
    if pos == digits {
      return None;
    }
    var dotEnd := pos;
    var groups := 0;
    hide DigitsEnd;
    while dotEnd + 1 < |s| && s[dotEnd] == '.' && Digit(s[dotEnd + 1])
      invariant pos <= dotEnd <= |s|
      invariant DotEnd(s, pos) == DotEnd(s, dotEnd)
      invariant groups > 0 <==> dotEnd > pos
    {
      dotEnd := dotEnd + 1;
      dotEnd := SkipDigits(s, dotEnd);
      groups := groups + 1;
    }
    if groups > 0 && BoundaryAfter(s, dotEnd) {
      return Some(Claim(VersionMask, dotEnd));
    }
    if hasV && BoundaryAfter(s, pos) {
      return Some(Claim(VersionMask, pos));
    }
    if !hasV && pos - digits >= 2 && BoundaryAfter(s, pos) {
      return Some(Claim(DigitMask, pos));
    }
    return None;
  }

  // ----- spans -----

  datatype Span = Span(mask: Mask, first: nat, last: nat)

  /** The spans one left-to-right pass claims from `at` on. */
  function Spans(s: string, at: nat): seq<Span>
    decreases |s| - at
  {
    if at >= |s| then []
    else
      match RuleAt(s, at)
      case Some(claim) => [Span(claim.mask, at, claim.end)] + Spans(s, claim.end)
      case None => Spans(s, at + 1)
  }

  /** Spans lie one after the other, none empty, between `at` and the end of a text of length `n`. */
  predicate Placed(spans: seq<Span>, at: nat, n: nat) {
    spans == [] || (at <= spans[0].first < spans[0].last <= n && Placed(spans[1..], spans[0].last, n))
  }

  lemma {:induction false} SpansPlaced(s: string, at: nat)
    ensures Placed(Spans(s, at), at, |s|)
    decreases |s| - at
  {
    hide RuleAt;
    if at < |s| {
      match RuleAt(s, at)
      case Some(claim) =>
        SpansPlaced(s, claim.end);
        assert Spans(s, at)[1..] == Spans(s, claim.end);
      case None =>
        SpansPlaced(s, at + 1);
    }
  }

  /** The text a span covers, by the rule that claimed it. */
  ghost predicate SpanShape(s: string, span: Span)
    requires span.first < span.last <= |s|
  {
    var text := s[span.first..span.last];
    match span.mask
    case ParenMask => |text| >= 2 && text[0] == '(' && text[|text| - 1] == ')' && ')' !in text[..|text| - 1]
    case VersionMask => (DottedToken(text) || (text[0] == 'v' && DottedToken(text[1..])) ||
                         (text[0] == 'v' && |text| > 1 && AllDigits(text[1..]))) && Anchored(s, span)
    case DigitMask => |text| >= 2 && AllDigits(text) && Anchored(s, span)
    case WildcardMask => false
  }

  /** No word character on either side. */
  predicate Anchored(s: string, span: Span)
    requires span.first < span.last <= |s|
  {
    !WordBefore(s, span.first) && BoundaryAfter(s, span.last)
  }

  /** Digit groups joined by dots, two at least. */
  ghost predicate DottedToken(t: string) {
    exists k: nat :: 0 < k < |t| && AllDigits(t[..k]) && Groups(t[k..])
  }

  /** One or more groups, each a dot and digits. */
  ghost predicate Groups(t: string)
    decreases |t|
  {
    exists k: nat :: GroupCut(t, k) && (k == |t| || Groups(t[k..]))
  }

  predicate GroupCut(t: string, k: nat) {
    1 < k <= |t| && t[0] == '.' && AllDigits(t[1..k])
  }

  lemma {:induction false} DotGroups(s: string, pos: nat)
    requires pos <= |s| && DotEnd(s, pos) > pos
    ensures Groups(s[pos..DotEnd(s, pos)])
    decreases |s| - pos
  {
    var next, end := DigitsEnd(s, pos + 1), DotEnd(s, pos);
    var t := s[pos..end];
    assert t[1..next - pos] == s[pos + 1..next];
    assert GroupCut(t, next - pos);
    if end > next {
      DotGroups(s, next);
      assert t[next - pos..] == s[next..end];
    }
  }

  lemma {:induction false} DottedShape(s: string, digits: nat, pos: nat, end: nat)
    requires digits < pos < end <= |s| && AllDigits(s[digits..pos]) && Groups(s[pos..end])
    ensures DottedToken(s[digits..end])
  {
    hide AllDigits, Groups;
    var t := s[digits..end];
    assert t[..pos - digits] == s[digits..pos] && t[pos - digits..] == s[pos..end];
  }

  lemma {:induction false} NumericShape(s: string, start: nat)
    requires start < |s| && NumericAt(s, start).Some? && !WordBefore(s, start)
    requires s[start] == 'v' || Digit(s[start])
    ensures var c := NumericAt(s, start).value; SpanShape(s, Span(c.mask, start, c.end))
  {
    hide AllDigits, Groups, DigitsEnd, DotEnd, DottedToken, IsWord;
    var end := NumericAt(s, start).value.end;
    var digits := if s[start] == 'v' then start + 1 else start;
    var pos := DigitsEnd(s, digits);
    if end > pos {
      DotGroups(s, pos);
      DottedShape(s, digits, pos, end);
    }
    assert s[start..end][digits - start..] == s[digits..end];
    assert s[start..end][0..] == s[start..end];
  }

  lemma {:induction false} RuleShape(s: string, at: nat)
    requires at < |s| && RuleAt(s, at).Some?
    ensures var c := RuleAt(s, at).value; SpanShape(s, Span(c.mask, at, c.end))
  {
    if s[at] == '(' && Find(s, ')', at + 1).Some? {
      var close := Find(s, ')', at + 1).value;
      var text := s[at..close + 1];
      SliceOfSlice(s, at, close + 1, 0, close - at);
      assert text[..|text| - 1] == text[0..close - at];
      assert s[at..close] == [s[at]] + s[at + 1..close];
    } else {
      NumericShape(s, at);
    }
  }

  /** Every claimed span is a closed parenthesis, a version or a number, anchored at both ends. */
  lemma {:induction false} SpansShaped(s: string, at: nat, k: nat)
    requires k < |Spans(s, at)|
    ensures var span := Spans(s, at)[k]; at <= span.first < span.last <= |s| && SpanShape(s, span)
    decreases |s| - at
  {
    hide RuleAt, SpanShape;
    match RuleAt(s, at)
    case Some(claim) =>
      if k == 0 {
        RuleShape(s, at);
      } else {
        SpansShaped(s, claim.end, k - 1);
      }
    case None =>
      SpansShaped(s, at + 1, k);
  }

  // ----- every shape is claimed -----

  /** ASCII letters, digits and the underscore, by their codes. */
  predicate WordByte(c: char) {
    var n := c as int;
    48 <= n <= 57 || 65 <= n <= 90 || n == 95 || 97 <= n <= 122
  }

  lemma {:induction false} WordIs(c: char)
    ensures IsWord(c) <==> WordByte(c)
  {
  }

  /** Neither the byte before `i` nor the one at `j` is a letter, a digit or an underscore. */
  predicate StandsFree(s: string, i: nat, j: nat) {
    i <= j <= |s| && (i > 0 ==> !WordByte(s[i - 1])) && (j < |s| ==> !WordByte(s[j]))
  }

  lemma {:induction false} FreeIs(s: string, i: nat, j: nat)
    requires i <= j <= |s|
    ensures StandsFree(s, i, j) <==> !WordBefore(s, i) && BoundaryAfter(s, j)
  {
    hide IsWord;
    if i > 0 {
      WordIs(s[i - 1]);
    }
    if j < |s| {
      WordIs(s[j]);
    }
  }

  /** All the digits from `i` on. */
  predicate DigitRun(s: string, i: nat, j: nat) {
    i < j <= |s| && AllDigits(s[i..j]) && (j < |s| ==> !Digit(s[j]))
  }

  /** All the groups of a dot and digits from `i` on. */
  ghost predicate DotRuns(s: string, i: nat, e: nat)
    decreases |s| - i
  {
    if i + 1 < |s| && s[i] == '.' && Digit(s[i + 1]) then exists m: nat :: DigitRun(s, i + 1, m) && DotRuns(s, m, e)
    else e == i
  }

  lemma {:induction false} DotRunsEnd(s: string, i: nat, e: nat)
    requires DotRuns(s, i, e)
    ensures DotEnd(s, i) == e
    decreases |s| - i
  {
    if i + 1 < |s| && s[i] == '.' && Digit(s[i + 1]) {
      var m: nat :| DigitRun(s, i + 1, m) && DotRuns(s, m, e);
      DigitsEndExact(s, i + 1, m);
      DotRunsEnd(s, m, e);
    }
  }

  /** What stands at `i`, told from the text: an optional `v`, digits to `j`, dotted groups to `e`. */
  ghost predicate NumberAt(s: string, i: nat, hasV: bool, j: nat, e: nat) {
    i < |s| && (hasV <==> s[i] == 'v') && DigitRun(s, if hasV then i + 1 else i, j) && DotRuns(s, j, e)
  }

  /** The reading of a number: dotted groups that end free are a version; else a `v` run that ends free is one;
      else two digits or more that end free are a number; and nothing else is anything. */
  lemma {:induction false} NumericIs(s: string, i: nat, hasV: bool, j: nat, e: nat)
    requires NumberAt(s, i, hasV, j, e) && !WordBefore(s, i)
    ensures NumericAt(s, i) ==
      if e > j && StandsFree(s, i, e) then Some(Claim(VersionMask, e))
      else if hasV && StandsFree(s, i, j) then Some(Claim(VersionMask, j))
      else if !hasV && j - i >= 2 && StandsFree(s, i, j) then Some(Claim(DigitMask, j))
      else None
  {
    hide StandsFree, IsWord, DotRuns, AllDigits, DigitsEnd;
    DigitsEndExact(s, if hasV then i + 1 else i, j);
    DotRunsEnd(s, j, e);
    FreeIs(s, i, j);
    FreeIs(s, i, e);
  }

  /** A span that starts earlier reaches over `i`. */
  ghost predicate Covered(spans: seq<Span>, i: nat) {
    exists span :: span in spans && span.first < i < span.last
  }

  ghost predicate StartsSpan(spans: seq<Span>, i: nat) {
    exists span :: span in spans && span.first == i
  }

  /** Where nothing earlier reaches over, the pass takes exactly what the rules claim. */
  lemma {:induction false} SpansTake(s: string, at: nat, i: nat)
    requires at <= i < |s| && !Covered(Spans(s, at), i)
    ensures RuleAt(s, i).Some? ==> Span(RuleAt(s, i).value.mask, i, RuleAt(s, i).value.end) in Spans(s, at)
    ensures RuleAt(s, i).None? ==> !StartsSpan(Spans(s, at), i)
    decreases i - at
  {
    hide RuleAt;
    match RuleAt(s, at)
    case Some(claim) =>
      var head, rest := Span(claim.mask, at, claim.end), Spans(s, claim.end);
      assert head in Spans(s, at);
      if at == i {
      } else {
        assert !(head.first < i < head.last);
        StillUncovered(rest, Spans(s, at), i);
        SpansTake(s, claim.end, i);
        LaterStart(s, at, i);
      }
    case None =>
      if at < i {
        SpansTake(s, at + 1, i);
      } else {
        NoneStarts(s, at + 1, i);
      }
  }

  lemma {:induction false} StillUncovered(rest: seq<Span>, spans: seq<Span>, i: nat)
    requires !Covered(spans, i) && forall span :: span in rest ==> span in spans
    ensures !Covered(rest, i)
  {
  }

  lemma {:induction false} NoneStarts(s: string, at: nat, i: nat)
    requires i < at
    ensures !StartsSpan(Spans(s, at), i)
  {
    forall k | 0 <= k < |Spans(s, at)|
      ensures Spans(s, at)[k].first != i
    {
      SpansShaped(s, at, k);
    }
  }

  lemma {:induction false} LaterStart(s: string, at: nat, i: nat)
    requires at < |s| && RuleAt(s, at).Some? && i != at
    ensures StartsSpan(Spans(s, at), i) <==> StartsSpan(Spans(s, RuleAt(s, at).value.end), i)
  {
    hide RuleAt;
    var claim, rest := RuleAt(s, at).value, Spans(s, RuleAt(s, at).value.end);
    assert Spans(s, at) == [Span(claim.mask, at, claim.end)] + rest;
  }

  /** Two digits or more, free on both sides and followed by no dot and digit, are one number span, unless a span
      that starts earlier reaches over them. */
  lemma {:induction false} NumberIsClaimed(s: string, i: nat, j: nat)
    requires DigitRun(s, i, j) && j - i >= 2 && StandsFree(s, i, j) && !(j + 1 < |s| && s[j] == '.' && Digit(s[j + 1]))
    ensures Covered(Spans(s, 0), i) || Span(DigitMask, i, j) in Spans(s, 0)
  {
    hide IsWord, Spans, StandsFree, Covered;
    DigitHead(s, i, j);
    FreeIs(s, i, j);
    NumericIs(s, i, false, j, j);
    if !Covered(Spans(s, 0), i) {
      SpansTake(s, 0, i);
    }
  }

  /** A lone digit under the same conditions starts no span. */
  lemma {:induction false} LoneDigitIsKept(s: string, i: nat)
    requires DigitRun(s, i, i + 1) && StandsFree(s, i, i + 1) && !(i + 2 < |s| && s[i + 1] == '.' && Digit(s[i + 2]))
    ensures Covered(Spans(s, 0), i) || !StartsSpan(Spans(s, 0), i)
  {
    hide IsWord, Spans, StandsFree, Covered, StartsSpan;
    DigitHead(s, i, i + 1);
    FreeIs(s, i, i + 1);
    NumericIs(s, i, false, i + 1, i + 1);
    if !Covered(Spans(s, 0), i) {
      SpansTake(s, 0, i);
    }
  }

  /** Dotted groups, behind a `v` or not, free on both sides, are one version span to their last digit; behind a
      `v` whose dotted groups do not end free, or are none, the first digits are. */
  lemma {:induction false} VersionIsClaimed(s: string, i: nat, hasV: bool, j: nat, e: nat)
    requires NumberAt(s, i, hasV, j, e) && (if e > j && StandsFree(s, i, e) then true else hasV && StandsFree(s, i, j))
    ensures Covered(Spans(s, 0), i) ||
            Span(VersionMask, i, if e > j && StandsFree(s, i, e) then e else j) in Spans(s, 0)
  {
    hide IsWord, Spans, Covered, DotRuns;
    if !hasV {
      DigitHead(s, i, j);
    }
    FreeIs(s, i, if e > j && StandsFree(s, i, e) then e else j);
    hide StandsFree;
    NumericIs(s, i, hasV, j, e);
    if !Covered(Spans(s, 0), i) {
      SpansTake(s, 0, i);
    }
  }

  lemma {:induction false} DigitHead(s: string, i: nat, j: nat)
    requires DigitRun(s, i, j)
    ensures i < |s| && Digit(s[i])
  {
    assert s[i..j][0] == s[i];
  }

  /** A parenthesis is one span up to the first one that closes; one that none closes starts no span. */
  lemma {:induction false} ParenthesisIsClaimed(s: string, i: nat)
    requires i < |s| && s[i] == '('
    ensures forall j :: i < j < |s| && s[j] == ')' && ')' !in s[i + 1..j] ==>
      Covered(Spans(s, 0), i) || Span(ParenMask, i, j + 1) in Spans(s, 0)
    ensures ')' !in s[i + 1..] ==> Covered(Spans(s, 0), i) || !StartsSpan(Spans(s, 0), i)
  {
    hide Spans, Covered, StartsSpan, NumericAt, IsWord;
    if !Covered(Spans(s, 0), i) {
      SpansTake(s, 0, i);
    }
    forall j | i < j < |s| && s[j] == ')' && ')' !in s[i + 1..j]
      ensures Find(s, ')', i + 1) == Some(j)
    {
      FindIs(s, ')', i + 1, j);
    }
    FindNone(s, ')', i + 1);
  }

  lemma {:induction false} FindNone(s: string, c: char, from: nat)
    requires from <= |s|
    ensures c !in s[from..] ==> Find(s, c, from) == None
  {
    var r := Find(s, c, from);
    assert r.Some? ==> s[from..][r.value - from] == s[r.value];
  }

  lemma {:induction false} FindIs(s: string, c: char, from: nat, k: nat)
    requires from <= k < |s| && s[k] == c && c !in s[from..k]
    ensures Find(s, c, from) == Some(k)
    decreases k - from
  {
    if from < k {
      assert s[from..k][0] == s[from] && s[from + 1..k] == s[from..k][1..];
      FindIs(s, c, from + 1, k);
    }
  }

  /** Nothing reaches over a position behind a byte that is no part of a number, when no parenthesis opens
      before it. */
  lemma {:induction false} NothingReachesOver(s: string, i: nat)
    requires i < |s| && '(' !in s[..i] && (i > 0 ==> !WordByte(s[i - 1]) && s[i - 1] != '.')
    ensures !Covered(Spans(s, 0), i)
  {
    hide IsWord;
    forall k | 0 <= k < |Spans(s, 0)|
      ensures var span := Spans(s, 0)[k]; !(span.first < i < span.last)
    {
      SpansShaped(s, 0, k);
      var span := Spans(s, 0)[k];
      if span.first < i < span.last {
        SpanByte(s, span, i - 1);
      }
    }
  }

  /** A byte inside a span that is no parenthesis is a digit, a dot or a `v`. */
  lemma {:induction false} SpanByte(s: string, span: Span, k: nat)
    requires span.first <= k < span.last <= |s| && SpanShape(s, span)
    ensures s[span.first] == '(' || WordByte(s[k]) || s[k] == '.'
  {
    var text := s[span.first..span.last];
    assert text[0] == s[span.first] && text[k - span.first] == s[k];
    match span.mask
    case ParenMask =>
    case DigitMask => DigitIsWord(text[k - span.first]);
    case VersionMask =>
      if text[0] == 'v' && k > span.first {
        assert text[1..][k - span.first - 1] == s[k];
      }
      if DottedToken(text) {
        DottedByte(text, k - span.first);
      } else if k > span.first && DottedToken(text[1..]) {
        DottedByte(text[1..], k - span.first - 1);
      } else if k > span.first {
        DigitIsWord(s[k]);
      } else {
        assert WordByte('v');
      }
    case WildcardMask =>
  }

  lemma {:induction false} DigitIsWord(c: char)
    requires Digit(c)
    ensures WordByte(c)
  {
  }

  lemma {:induction false} DottedByte(t: string, k: nat)
    requires DottedToken(t) && k < |t|
    ensures WordByte(t[k]) || t[k] == '.'
  {
    var m: nat :| 0 < m < |t| && AllDigits(t[..m]) && Groups(t[m..]);
    if k < m {
      assert t[..m][k] == t[k];
      DigitIsWord(t[k]);
    } else {
      assert t[m..][k - m] == t[k];
      GroupsByte(t[m..], k - m);
    }
  }

  lemma {:induction false} GroupsByte(t: string, k: nat)
    requires Groups(t) && k < |t|
    ensures WordByte(t[k]) || t[k] == '.'
    decreases |t|
  {
    var m: nat :| GroupCut(t, m) && (m == |t| || Groups(t[m..]));
    if 0 < k < m {
      assert t[1..m][k - 1] == t[k];
      DigitIsWord(t[k]);
    } else if m <= k {
      assert t[m..][k - m] == t[k];
      GroupsByte(t[m..], k - m);
    }
  }

  // ----- the class -----

  /** The text from `at` on with the spans replaced by their masks. */
  function MaskedFrom(s: string, at: nat, spans: seq<Span>): string
    requires at <= |s| && Placed(spans, at, |s|)
    decreases |spans|
  {
    if spans == [] then s[at..]
    else s[at..spans[0].first] + (MaskText(spans[0].mask) + MaskedFrom(s, spans[0].last, spans[1..]))
  }

  function ClassOf(name: string): string {
    var s := Trimmed(name);
    SpansPlaced(s, 0);
    MaskedFrom(s, 0, Spans(s, 0))
  }

  /** A name that is one span reads as that span's mask. */
  lemma {:induction false} AloneReads(name: string)
    ensures |name| >= 2 && AllDigits(name) ==> ClassOf(name) == "N"
    ensures |name| >= 2 && name[0] == 'v' && AllDigits(name[1..]) ==> ClassOf(name) == "vX"
    ensures |name| >= 2 && name[0] == '(' && name[|name| - 1] == ')' && ')' !in name[..|name| - 1] ==> ClassOf(name) == "(M)"
  {
    if |name| >= 2 && AllDigits(name) {
      NumberAlone(name);
    } else if |name| >= 2 && name[0] == 'v' && AllDigits(name[1..]) {
      VersionAlone(name);
    } else if |name| >= 2 && name[0] == '(' && name[|name| - 1] == ')' && ')' !in name[..|name| - 1] {
      ParenthesisAlone(name);
    }
  }

  lemma {:induction false} NumberAlone(name: string)
    requires |name| >= 2 && AllDigits(name)
    ensures ClassOf(name) == "N"
  {
    assert name[0..|name|] == name;
    NumericIs(name, 0, false, |name|, |name|);
    WholeSpan(name, DigitMask);
  }

  lemma {:induction false} VersionAlone(name: string)
    requires |name| >= 2 && name[0] == 'v' && AllDigits(name[1..])
    ensures ClassOf(name) == "vX"
  {
    assert name[1..|name|] == name[1..];
    assert name[1..][|name| - 2] == name[|name| - 1];
    NumericIs(name, 0, true, |name|, |name|);
    WholeSpan(name, VersionMask);
  }

  lemma {:induction false} ParenthesisAlone(name: string)
    requires |name| >= 2 && name[0] == '(' && name[|name| - 1] == ')' && ')' !in name[..|name| - 1]
    ensures ClassOf(name) == "(M)"
  {
    assert name[1..|name| - 1] == name[..|name| - 1][1..];
    FindIs(name, ')', 1, |name| - 1);
    WholeSpan(name, ParenMask);
  }

  lemma {:induction false} WholeSpan(name: string, mask: Mask)
    requires name != "" && !TrimByte(name[0]) && !TrimByte(name[|name| - 1]) && RuleAt(name, 0) == Some(Claim(mask, |name|))
    ensures ClassOf(name) == MaskText(mask)
  {
    hide RuleAt, MaskText, TrimByte;
    TrimmedFixed(name);
    assert Spans(name, |name|) == [] && [Span(mask, 0, |name|)] + [] == [Span(mask, 0, |name|)];
    SpansPlaced(name, 0);
    MaskedClaims(name, 0, mask, |name|, []);
    assert MaskText(mask) + "" == MaskText(mask);
  }

  lemma {:induction false} MaskedSkips(s: string, at: nat, spans: seq<Span>)
    requires at < |s| && Placed(spans, at + 1, |s|)
    ensures Placed(spans, at, |s|) && MaskedFrom(s, at, spans) == [s[at]] + MaskedFrom(s, at + 1, spans)
  {
    if spans == [] {
      assert s[at..] == [s[at]] + s[at + 1..];
    } else {
      var i := spans[0].first;
      hide Placed;
      assert s[at..i] == [s[at]] + s[at + 1..i];
      Reassociate([s[at]], s[at + 1..i], MaskText(spans[0].mask) + MaskedFrom(s, spans[0].last, spans[1..]));
    }
  }

  lemma {:induction false} MaskedClaims(s: string, at: nat, mask: Mask, end: nat, spans: seq<Span>)
    requires at < end <= |s| && Placed(spans, end, |s|)
    ensures Placed([Span(mask, at, end)] + spans, at, |s|)
    ensures MaskedFrom(s, at, [Span(mask, at, end)] + spans) == MaskText(mask) + MaskedFrom(s, end, spans)
  {
    assert ([Span(mask, at, end)] + spans)[1..] == spans;
    assert s[at..at] == "";
  }

  /** What the class still owes at `at`. */
  function ClassFrom(s: string, at: nat): string
    requires at <= |s|
  {
    SpansPlaced(s, at);
    MaskedFrom(s, at, Spans(s, at))
  }

  lemma {:induction false} ClassStep(s: string, at: nat)
    requires at < |s|
    ensures ClassFrom(s, at) ==
            match RuleAt(s, at)
            case Some(claim) => MaskText(claim.mask) + ClassFrom(s, claim.end)
            case None => [s[at]] + ClassFrom(s, at + 1)
  {
    hide RuleAt, MaskedFrom;
    match RuleAt(s, at)
    case Some(claim) =>
      SpansPlaced(s, claim.end);
      MaskedClaims(s, at, claim.mask, claim.end, Spans(s, claim.end));
    case None =>
      SpansPlaced(s, at + 1);
      MaskedSkips(s, at, Spans(s, at + 1));
  }

  /** One turn of the loop, branch by branch. */
  lemma {:induction false} ClassTurn(s: string, at: nat, out: string, whole: string)
    requires at < |s| && out + ClassFrom(s, at) == whole
    ensures var close := Find(s, ')', at + 1);
      var claim := NumericAt(s, at);
      if s[at] == '(' && close.Some? then
        (out + MaskText(ParenMask)) + ClassFrom(s, close.value + 1) == whole && !WordBefore(s, close.value + 1)
      else if !WordBefore(s, at) && (s[at] == 'v' || Digit(s[at])) && claim.Some? then
        (out + MaskText(claim.value.mask)) + ClassFrom(s, claim.value.end) == whole && WordBefore(s, claim.value.end)
      else (out + [s[at]]) + ClassFrom(s, at + 1) == whole && WordBefore(s, at + 1) == IsWord(s[at])
  {
    hide ClassFrom, MaskText, IsWord, Digit, NumericAt, WordBefore;
    ClassStep(s, at);
    var close, claim := Find(s, ')', at + 1), NumericAt(s, at);
    if close.Some? {
      ParenthesisIsNoWord(s, close.value);
      Reassociate(out, MaskText(ParenMask), ClassFrom(s, close.value + 1));
    }
    if claim.Some? {
      NumericEndsInWord(s, at);
      Reassociate(out, MaskText(claim.value.mask), ClassFrom(s, claim.value.end));
    }
    WordStep(s, at);
    Reassociate(out, [s[at]], ClassFrom(s, at + 1));
  }

  /** `canonicalize_intent`: the loop carries only whether a word character came before. */
  method CanonicalizeIntent(raw: string) returns (out: string)
    ensures out == ClassOf(raw)
  {
    hide NumericAt, Find, ClassFrom, WordBefore, MaskText, Digit, IsWord, Trimmed, ClassOf;
    var name := Trimmed(raw);
    out := "";
    var idx := 0;
    var prevIsWord := false;
    LoopStart(raw);
    while idx < |name|
      invariant 0 <= idx <= |name|
      invariant out + ClassFrom(name, idx) == ClassOf(raw)
      invariant prevIsWord == WordBefore(name, idx)
      decreases |name| - idx
    {
      ClassTurn(name, idx, out, ClassOf(raw));
      var c := name[idx];
      if c == '(' {
        var close := Find(name, ')', idx + 1);
        if close.Some? {
          out := out + MaskText(ParenMask);
          idx := close.value + 1;
          prevIsWord := false;
          continue;
        }
      }
      if !prevIsWord && (c == 'v' || Digit(c)) {
        var claim := ClaimNumeric(name, idx);
        if claim.Some? {
          out := out + MaskText(claim.value.mask);
          idx := claim.value.end;
          prevIsWord := true;
          continue;
        }
      }
      out := out + [c];
      prevIsWord := IsWord(c);
      idx := idx + 1;
    }
    LoopEnds(name, out);
  }

  lemma {:induction false} LoopEnds(s: string, out: string)
    ensures out + ClassFrom(s, |s|) == out
  {
    ClassEnds(s);
  }

  lemma {:induction false} LoopStart(raw: string)
    ensures ClassFrom(Trimmed(raw), 0) == ClassOf(raw) && !WordBefore(Trimmed(raw), 0)
    ensures "" + ClassFrom(Trimmed(raw), 0) == ClassOf(raw)
  {
    hide Trimmed, MaskedFrom, Spans;
  }

  lemma {:induction false} ClassEnds(s: string)
    ensures ClassFrom(s, |s|) == ""
  {
  }

  lemma {:induction false} WordStep(s: string, idx: nat)
    requires idx < |s|
    ensures WordBefore(s, idx + 1) == IsWord(s[idx])
  {
  }

  lemma {:induction false} ParenthesisIsNoWord(s: string, close: nat)
    requires close < |s| && s[close] == ')'
    ensures !WordBefore(s, close + 1)
  {
  }

  lemma {:induction false} DotEndDigit(s: string, pos: nat)
    requires 0 < pos <= |s| && Digit(s[pos - 1])
    ensures Digit(s[DotEnd(s, pos) - 1])
    decreases |s| - pos
  {
    if pos + 1 < |s| && s[pos] == '.' && Digit(s[pos + 1]) {
      DigitsEndDigit(s, pos + 1);
      DotEndDigit(s, DigitsEnd(s, pos + 1));
    }
  }

  lemma {:induction false} DigitsEndDigit(s: string, pos: nat)
    requires DigitsEnd(s, pos) > pos
    ensures Digit(s[DigitsEnd(s, pos) - 1])
  {
    var end := DigitsEnd(s, pos);
    assert s[end - 1] == s[pos..end][end - 1 - pos];
  }

  /** A numeric claim ends in a digit, which is a word character. */
  lemma {:induction false} NumericEndsInWord(s: string, start: nat)
    requires start < |s| && NumericAt(s, start).Some?
    ensures WordBefore(s, NumericAt(s, start).value.end)
  {
    var digits := if s[start] == 'v' then start + 1 else start;
    DigitsEndDigit(s, digits);
    DotEndDigit(s, DigitsEnd(s, digits));
  }

  // ----- the discriminant -----

  datatype Window = Window(first: nat, last: nat)

  function Envelope(spans: seq<Span>): Option<Window> {
    if spans == [] then None else Some(Window(spans[0].first, spans[|spans| - 1].last))
  }

  /** What the envelope loop knows at `idx`: the spans seen, the first start and the last end. */
  ghost predicate Seen(s: string, idx: nat, first: Option<nat>, last: nat) {
    exists seen: seq<Span> :: SeenSpans(s, idx, first, last, seen)
  }

  ghost predicate SeenSpans(s: string, idx: nat, first: Option<nat>, last: nat, seen: seq<Span>) {
    && idx <= |s| && seen + Spans(s, idx) == Spans(s, 0)
    && if seen == [] then first == None else first == Some(seen[0].first) && last == seen[|seen| - 1].last
  }

  lemma {:induction false} SeenStart(s: string)
    ensures Seen(s, 0, None, 0) && !WordBefore(s, 0)
  {
    assert SeenSpans(s, 0, None, 0, []);
  }

  lemma {:induction false} SeenClaim(s: string, idx: nat, first: Option<nat>, last: nat)
    requires idx < |s| && Seen(s, idx, first, last) && RuleAt(s, idx).Some?
    ensures var end := RuleAt(s, idx).value.end; Seen(s, end, if first.None? then Some(idx) else first, end)
  {
    hide RuleAt;
    var seen: seq<Span> :| SeenSpans(s, idx, first, last, seen);
    var c := RuleAt(s, idx).value;
    var span := Span(c.mask, idx, c.end);
    Appended(seen, span, Spans(s, c.end));
    assert SeenSpans(s, c.end, if first.None? then Some(idx) else first, c.end, seen + [span]);
  }

  lemma {:induction false} Appended(x: seq<Span>, y: Span, z: seq<Span>)
    ensures (x + [y]) + z == x + ([y] + z)
  {
  }

  lemma {:induction false} SeenSkip(s: string, idx: nat, first: Option<nat>, last: nat)
    requires idx < |s| && Seen(s, idx, first, last) && RuleAt(s, idx).None?
    ensures Seen(s, idx + 1, first, last)
  {
    hide RuleAt;
    var seen: seq<Span> :| SeenSpans(s, idx, first, last, seen);
    assert SeenSpans(s, idx + 1, first, last, seen);
  }

  lemma {:induction false} SeenAll(s: string, first: Option<nat>, last: nat)
    requires Seen(s, |s|, first, last)
    ensures Envelope(Spans(s, 0)) == if first.None? then None else Some(Window(first.value, last))
  {
    var seen: seq<Span> :| SeenSpans(s, |s|, first, last, seen);
    assert Spans(s, |s|) == [] && seen + [] == seen;
  }

  /** One turn of the envelope loop, branch by branch. */
  lemma {:induction false} SeenTurn(s: string, idx: nat, first: Option<nat>, last: nat)
    requires idx < |s| && Seen(s, idx, first, last)
    ensures var close := Find(s, ')', idx + 1);
      var claim := NumericAt(s, idx);
      var begun := if first.None? then Some(idx) else first;
      if s[idx] == '(' && close.Some? then Seen(s, close.value + 1, begun, close.value + 1) && !WordBefore(s, close.value + 1)
      else if !WordBefore(s, idx) && (s[idx] == 'v' || Digit(s[idx])) && claim.Some? then
        Seen(s, claim.value.end, begun, claim.value.end) && WordBefore(s, claim.value.end)
      else Seen(s, idx + 1, first, last) && WordBefore(s, idx + 1) == IsWord(s[idx])
  {
    hide Seen, IsWord, Digit, NumericAt, WordBefore;
    if RuleAt(s, idx).Some? {
      SeenClaim(s, idx, first, last);
    } else {
      SeenSkip(s, idx, first, last);
    }
    if Find(s, ')', idx + 1).Some? {
      ParenthesisIsNoWord(s, Find(s, ')', idx + 1).value);
    }
    if NumericAt(s, idx).Some? {
      NumericEndsInWord(s, idx);
    }
    WordStep(s, idx);
  }

  /** The loop of `discriminant_of`, its result as a window of the name. */
  method DiscriminantWindow(name: string) returns (window: Option<Window>)
    ensures window == Envelope(Spans(name, 0))
  {
    hide NumericAt, Find, WordBefore, Digit, IsWord, Seen, Spans;
    var first: Option<nat> := None;
    var last := 0;
    var idx := 0;
    var prevIsWord := false;
    SeenStart(name);
    while idx < |name|
      invariant 0 <= idx <= |name|
      invariant Seen(name, idx, first, last)
      invariant prevIsWord == WordBefore(name, idx)
      decreases |name| - idx
    {
      SeenTurn(name, idx, first, last);
      var c := name[idx];
      if c == '(' {
        var close := Find(name, ')', idx + 1);
        if close.Some? {
          if first.None? {
            first := Some(idx);
          }
          last := close.value + 1;
          idx := close.value + 1;
          prevIsWord := false;
          continue;
        }
      }
      if !prevIsWord && (c == 'v' || Digit(c)) {
        var claim := ClaimNumeric(name, idx);
        if claim.Some? {
          if first.None? {
            first := Some(idx);
          }
          last := claim.value.end;
          idx := claim.value.end;
          prevIsWord := true;
          continue;
        }
      }
      prevIsWord := IsWord(c);
      idx := idx + 1;
    }
    SeenAll(name, first, last);
    if first.None? {
      return None;
    }
    return Some(Window(first.value, last));
  }

  predicate Covers(w: Window, spans: seq<Span>) {
    forall i :: 0 <= i < |spans| ==> w.first <= spans[i].first && spans[i].last <= w.last
  }

  lemma {:induction false} PlacedBounds(spans: seq<Span>, at: nat, n: nat, i: nat)
    requires Placed(spans, at, n) && i < |spans|
    ensures at <= spans[i].first < spans[i].last <= spans[|spans| - 1].last <= n
    ensures spans[0].first <= spans[i].first
    decreases |spans|
  {
    if |spans| > 1 {
      PlacedBounds(spans[1..], spans[0].last, n, if i == 0 then 0 else i - 1);
    }
  }

  /** The envelope is the least window that covers every span. */
  lemma {:induction false} EnvelopeIsLeast(name: string, w: Window)
    requires Spans(name, 0) != []
    ensures var e := Envelope(Spans(name, 0)).value;
      && e.first < e.last <= |name| && Covers(e, Spans(name, 0))
      && (Covers(w, Spans(name, 0)) ==> w.first <= e.first && e.last <= w.last)
  {
    SpansPlaced(name, 0);
    var spans := Spans(name, 0);
    hide Spans, Placed;
    forall i | 0 <= i < |spans|
      ensures spans[0].first <= spans[i].first < spans[i].last <= spans[|spans| - 1].last <= |name|
    {
      PlacedBounds(spans, 0, |name|, i);
    }
  }

  // ----- class and discriminant together -----

  predicate SamePositions(a: seq<Span>, b: seq<Span>) {
    |a| == |b| && forall i :: 0 <= i < |a| ==> a[i].first == b[i].first && a[i].last == b[i].last
  }

  function EnvelopeText(s: string): string {
    var spans := Spans(s, 0);
    if spans == [] then ""
    else
      EnvelopeIsLeast(s, Window(0, 0));
      s[spans[0].first..spans[|spans| - 1].last]
  }

  /** Equal masked texts with equal span positions agree outside the spans. */
  lemma {:induction false} OutsideAgrees(a: string, b: string, at: nat, p: seq<Span>, q: seq<Span>)
    requires at <= |a| && at <= |b| && Placed(p, at, |a|) && Placed(q, at, |b|) && SamePositions(p, q)
    requires MaskedFrom(a, at, p) == MaskedFrom(b, at, q)
    ensures |a| == |b|
    ensures p != [] ==> p[0].first <= p[|p| - 1].last <= |a|
    ensures p == [] ==> a[at..] == b[at..]
    ensures p != [] ==> a[at..p[0].first] == b[at..p[0].first] && a[p[|p| - 1].last..] == b[p[|p| - 1].last..]
    decreases |p|
  {
    if p != [] {
      var i, j := p[0].first, p[0].last;
      SplitEqual(a[at..i], MaskText(p[0].mask) + MaskedFrom(a, j, p[1..]),
                 b[at..i], MaskText(q[0].mask) + MaskedFrom(b, j, q[1..]));
      MasksDiffer(p[0].mask, MaskedFrom(a, j, p[1..]), q[0].mask, MaskedFrom(b, j, q[1..]));
      PlacedBounds(p, at, |a|, 0);
      OutsideAgrees(a, b, j, p[1..], q[1..]);
    }
  }

  lemma {:induction false} SplitEqual(x: string, y: string, u: string, v: string)
    requires x + y == u + v && |x| == |u|
    ensures x == u && y == v
  {
    assert x == (x + y)[..|x|] && u == (u + v)[..|x|];
    assert y == (x + y)[|x|..] && v == (u + v)[|x|..];
  }

  lemma {:induction false} MasksDiffer(m: Mask, x: string, n: Mask, y: string)
    requires MaskText(m) + x == MaskText(n) + y
    ensures m == n && x == y
  {
    assert (MaskText(m) + x)[0] == MaskText(m)[0] && (MaskText(n) + y)[0] == MaskText(n)[0];
    SplitEqual(MaskText(m), x, MaskText(n), y);
  }

  /** Names with the same class, the same envelope and the same span positions are the same name. */
  lemma {:induction false} ClassAndEnvelopeSeparate(a: string, b: string)
    requires ClassFrom(a, 0) == ClassFrom(b, 0) && EnvelopeText(a) == EnvelopeText(b)
    requires SamePositions(Spans(a, 0), Spans(b, 0))
    ensures a == b
  {
    SpansPlaced(a, 0);
    SpansPlaced(b, 0);
    hide Spans, MaskedFrom, Placed;
    var p, q := Spans(a, 0), Spans(b, 0);
    OutsideAgrees(a, b, 0, p, q);
    if p == [] {
      assert a[0..] == a && b[0..] == b;
    } else {
      EnvelopeIsLeast(a, Window(0, 0));
      EnvelopeIsLeast(b, Window(0, 0));
      hide Covers;
      Rejoined(a, b, p[0].first, p[|p| - 1].last);
    }
  }

  lemma {:induction false} Rejoined(a: string, b: string, i: nat, j: nat)
    requires i <= j <= |a| == |b| && a[0..i] == b[0..i] && a[i..j] == b[i..j] && a[j..] == b[j..]
    ensures a == b
  {
    assert a == a[0..i] + a[i..j] + a[j..];
    assert b == b[0..i] + b[i..j] + b[j..];
  }

  lemma {:induction false} Unclaimed(s: string, at: nat)
    requires at < |s| && s[at] != '(' && (WordBefore(s, at) || (s[at] != 'v' && !Digit(s[at])))
    ensures Spans(s, at) == Spans(s, at + 1)
  {
  }

  lemma {:induction false} LoneDigit(s: string, at: nat)
    requires at + 1 < |s| && Digit(s[at]) && !Digit(s[at + 1]) && s[at + 1] != '.'
    ensures Spans(s, at) == Spans(s, at + 1)
  {
    DigitsEndExact(s, at, at + 1);
  }

  lemma {:induction false} FirstExample(s: string)
    requires s == "v12.34.5x"
    ensures Spans(s, 0) == [Span(VersionMask, 0, 3), Span(DigitMask, 4, 6)]
  {
    DigitsEndExact(s, 1, 3);
    DigitsEndExact(s, 4, 6);
    DigitsEndExact(s, 7, 8);
    assert DotEnd(s, 8) == 8 && DotEnd(s, 6) == 8 && DotEnd(s, 3) == 8;
    assert NumericAt(s, 0) == Some(Claim(VersionMask, 3));
    assert NumericAt(s, 4) == Some(Claim(DigitMask, 6));
    hide NumericAt, DigitsEnd, DotEnd;
    Unclaimed(s, 3);
    Unclaimed(s, 6);
    LoneDigit(s, 7);
    Unclaimed(s, 8);
    assert Spans(s, 9) == [];
  }

  lemma {:induction false} SecondExample(s: string)
    requires s == "v12.34.N.5x"
    ensures Spans(s, 0) == [Span(VersionMask, 0, 6)]
  {
    DigitsEndExact(s, 1, 3);
    DigitsEndExact(s, 4, 6);
    assert DotEnd(s, 6) == 6 && DotEnd(s, 3) == 6;
    assert NumericAt(s, 0) == Some(Claim(VersionMask, 6));
    hide NumericAt, DigitsEnd, DotEnd;
    Unclaimed(s, 6);
    Unclaimed(s, 7);
    Unclaimed(s, 8);
    LoneDigit(s, 9);
    Unclaimed(s, 10);
    assert Spans(s, 11) == [];
  }

  lemma {:induction false} FirstClass(s: string)
    requires s == "v12.34.5x"
    ensures ClassFrom(s, 0) == "vX.N.5x" && EnvelopeText(s) == "v12.34"
  {
    FirstExample(s);
    SpansPlaced(s, 0);
    hide Spans;
    var p: seq<Span> := [Span(DigitMask, 4, 6)];
    assert p[1..] == [] && s[6..] == ".5x" && s[3..4] == ".";
    assert MaskedFrom(s, 3, p) == "." + ("N" + s[6..]);
    MaskedClaims(s, 0, VersionMask, 3, p);
    assert [Span(VersionMask, 0, 3)] + p == Spans(s, 0);
  }

  lemma {:induction false} SecondClass(s: string)
    requires s == "v12.34.N.5x"
    ensures ClassFrom(s, 0) == "vX.N.5x" && EnvelopeText(s) == "v12.34"
  {
    SecondExample(s);
    SpansPlaced(s, 0);
    hide Spans;
    assert s[6..] == ".N.5x";
    MaskedClaims(s, 0, VersionMask, 6, []);
    assert [Span(VersionMask, 0, 6)] + [] == Spans(s, 0);
  }

  /** The span positions are needed: two different names share class and envelope. */
  lemma {:induction false} PositionsAreNeeded()
    ensures ClassFrom("v12.34.5x", 0) == ClassFrom("v12.34.N.5x", 0)
    ensures EnvelopeText("v12.34.5x") == EnvelopeText("v12.34.N.5x")
  {
    hide ClassFrom, EnvelopeText;
    FirstClass("v12.34.5x");
    SecondClass("v12.34.N.5x");
  }

  /** A text that starts as `s[from..i]` and ends as `s[e..]`. */
  predicate KeepsEnds(m: string, s: string, from: nat, i: nat, e: nat) {
    from <= i <= |s| && e <= |s| && s[from..i] <= m && EndsWith(m, s[e..])
  }

  predicate EndsWith(m: string, tail: string) {
    |tail| <= |m| && m[|m| - |tail|..] == tail
  }

  lemma {:induction false} EndsWithMore(head: string, m: string, tail: string)
    requires EndsWith(m, tail)
    ensures EndsWith(head + m, tail)
  {
  }

  /** Outside the envelope the class keeps the name's bytes. */
  lemma {:induction false} OutsideEnvelopeKept(s: string)
    ensures match Envelope(Spans(s, 0))
            case None => ClassFrom(s, 0) == s
            case Some(e) => KeepsEnds(ClassFrom(s, 0), s, 0, e.first, e.last)
  {
    SpansPlaced(s, 0);
    hide Spans, KeepsEnds;
    if Spans(s, 0) == [] {
      assert s[0..] == s;
    } else {
      OutsideKept(s, 0, Spans(s, 0));
    }
  }

  lemma {:induction false} OutsideKept(s: string, at: nat, spans: seq<Span>)
    requires at <= |s| && spans != [] && Placed(spans, at, |s|)
    ensures KeepsEnds(MaskedFrom(s, at, spans), s, at, spans[0].first, spans[|spans| - 1].last)
    decreases |spans|
  {
    PlacedBounds(spans, at, |s|, 0);
    var head, mask := s[at..spans[0].first], MaskText(spans[0].mask);
    var rest := MaskedFrom(s, spans[0].last, spans[1..]);
    if |spans| > 1 {
      OutsideKept(s, spans[0].last, spans[1..]);
    }
    hide MaskText, Placed, EndsWith;
    var tail := s[spans[|spans| - 1].last..];
    WholeEnds(tail);
    hide MaskedFrom;
    EndsWithMore(mask, rest, tail);
    EndsWithMore(head, mask + rest, tail);
  }

  lemma {:induction false} WholeEnds(tail: string)
    ensures EndsWith(tail, tail)
  {
  }

  // ----- names that declare a version -----

  /** The name before a declared version, and the version's own start. */
  function HeadOf(name: string, version: string): string
    requires |version| <= |name|
  {
    name[..|name| - |version|]
  }

  predicate HasVersion(name: string, version: string) {
    version != "" && |version| <= |name|
  }

  function VersionedClass(raw: string, version: string): string {
    var name := Trimmed(raw);
    if !HasVersion(name, version) then ClassOf(name) else ClassOf(HeadOf(name, version)) + MaskText(VersionMask)
  }

  function VersionedWindow(raw: string, version: string): Option<Window> {
    var name := Trimmed(raw);
    if !HasVersion(name, version) then Envelope(Spans(name, 0))
    else
      var head := HeadOf(name, version);
      match Envelope(Spans(Trimmed(head), 0))
      case None => Some(Window(|head|, |name|))
      case Some(w) => Some(Window(w.first, |name|))
  }

  /** `canonicalize_intent` of a marker. */
  method CanonicalizeMarker(raw: string, version: string) returns (out: string)
    ensures out == VersionedClass(raw, version)
  {
    hide ClassOf, Trimmed;
    var name := Trimmed(raw);
    if version == "" || |version| > |name| {
      out := CanonicalizeIntent(name);
      return;
    }
    out := CanonicalizeIntent(name[..|name| - |version|]);
    out := out + MaskText(VersionMask);
  }

  /** `discriminant_of`, as a window of the trimmed name. */
  method DiscriminantOf(raw: string, version: string) returns (window: Option<Window>)
    ensures window == VersionedWindow(raw, version)
  {
    hide Spans, Trimmed;
    var name := Trimmed(raw);
    if version == "" || |version| > |name| {
      window := DiscriminantWindow(name);
      return;
    }
    var head := name[..|name| - |version|];
    var headWindow := DiscriminantWindow(Trimmed(head));
    var first := if headWindow.None? then |head| else headWindow.value.first;
    return Some(Window(first, |name|));
  }

  /** The spans of a versioned name: those of its head, then the version whole. */
  function VersionedSpans(name: string, version: string): seq<Span>
    requires HasVersion(name, version)
  {
    Spans(Trimmed(HeadOf(name, version)), 0) + [Span(VersionMask, |name| - |version|, |name|)]
  }

  lemma {:induction false} MaskedThenLast(t: string, h: string, at: nat, spans: seq<Span>, last: Span)
    requires h <= t && at <= |h| <= last.first < last.last == |t| && Placed(spans, at, |h|)
    ensures Placed(spans + [last], at, |t|)
    ensures MaskedFrom(t, at, spans + [last]) == MaskedFrom(h, at, spans) + (t[|h|..last.first] + MaskText(last.mask))
    decreases |spans|
  {
    var all := spans + [last];
    if spans == [] {
      assert all[1..] == [] && t[last.last..] == "";
      assert t[at..last.first] == h[at..] + t[|h|..last.first];
      assert MaskText(last.mask) + "" == MaskText(last.mask);
      Reassociate(h[at..], t[|h|..last.first], MaskText(last.mask));
    } else {
      assert all[1..] == spans[1..] + [last];
      var i, j := spans[0].first, spans[0].last;
      MaskedThenLast(t, h, j, spans[1..], last);
      PlacedBounds(spans, at, |h|, 0);
      assert t[at..i] == h[at..i];
      hide Placed;
      var tail := t[|h|..last.first] + MaskText(last.mask);
      Reassociate(MaskText(spans[0].mask), MaskedFrom(h, j, spans[1..]), tail);
      Reassociate(h[at..i], MaskText(spans[0].mask) + MaskedFrom(h, j, spans[1..]), tail);
    }
  }

  lemma {:induction false} HeadTrims(name: string, version: string)
    requires IsTrimmed(name) && HasVersion(name, version)
    ensures Trimmed(HeadOf(name, version)) <= name && |Trimmed(HeadOf(name, version))| <= |name| - |version|
    ensures Trimmed(HeadOf(name, version)) == HeadOf(name, version) <==> IsTrimmed(HeadOf(name, version))
  {
    var head := HeadOf(name, version);
    assert head != "" ==> head[0] == name[0];
    assert TrimmedLeft(head) == head;
    var after := RightTrimmed(head);
    var before, after' := TrimmedIs(head);
    if IsTrimmed(head) {
      TrimmedFixed(head);
    }
  }

  /** A versioned name's discriminant covers exactly the spans of its head and the version; its class
      masks exactly those spans if and only if no blank stands between the head and the version, because
      the head is trimmed on its own. */
  lemma {:induction false} VersionedClassAgrees(name: string, version: string)
    requires IsTrimmed(name) && HasVersion(name, version)
    ensures Placed(VersionedSpans(name, version), 0, |name|)
    ensures VersionedWindow(name, version) == Envelope(VersionedSpans(name, version))
    ensures VersionedClass(name, version) == MaskedFrom(name, 0, VersionedSpans(name, version)) <==>
            IsTrimmed(HeadOf(name, version))
  {
    TrimmedFixed(name);
    HeadTrims(name, version);
    hide Spans, Trimmed, MaskedFrom, IsTrimmed;
    var head := HeadOf(name, version);
    var h := Trimmed(head);
    var last := Span(VersionMask, |head|, |name|);
    SpansPlaced(h, 0);
    MaskedThenLast(name, h, 0, Spans(h, 0), last);
    assert |name[|h|..|head|]| == |head| - |h|;
    if h == head {
      assert name[|h|..|head|] == "" && "" + MaskText(VersionMask) == MaskText(VersionMask);
    } else {
      assert h != head ==> |h| < |head|;
    }
  }

  // ----- the versions a recognizer returns -----

  predicate OccursAt(s: string, x: string, i: nat) {
    i + |x| <= |s| && s[i..i + |x|] == x
  }

  /** The last place at or before `at` where `x` stands in `s`. */
  function FindLast(s: string, x: string, at: nat): (r: Option<nat>)
    ensures r.Some? ==> r.value <= at && OccursAt(s, x, r.value) && forall i: nat :: r.value < i <= at ==> !OccursAt(s, x, i)
    ensures r.None? ==> forall i: nat :: i <= at ==> !OccursAt(s, x, i)
    decreases at
  {
    if OccursAt(s, x, at) then Some(at)
    else if at == 0 then None
    else FindLast(s, x, at - 1)
  }

  predicate OneToken(name: string) {
    forall i :: 0 <= i < |name| ==> !TrimByte(name[i])
  }

  /** The text behind the last introducer of a name. */
  ghost predicate Introduced(name: string, introducer: string, version: string) {
    |introducer| + |version| <= |name| &&
    var found := |name| - |version| - |introducer|;
    OccursAt(name, introducer, found) && forall i: nat :: found < i <= |name| ==> !OccursAt(name, introducer, i)
  }

  /** The version of a one-token name: what stands behind the last introducer. */
  function OneTokenVersion(raw: string, introducer: string): (version: string)
    ensures |version| <= |Trimmed(raw)| && Trimmed(raw)[|Trimmed(raw)| - |version|..] == version
    ensures version != "" ==> OneToken(Trimmed(raw)) && introducer != "" && Introduced(Trimmed(raw), introducer, version)
  {
    var name := Trimmed(raw);
    if introducer == "" || !OneToken(name) then ""
    else
      match FindLast(name, introducer, |name|)
      case None => ""
      case Some(found) => name[found + |introducer|..]
  }

  predicate StandsAt(name: string, x: string, q: nat) {
    q + |x| <= |name| && name[q..q + |x|] == x
  }

  /** The last place where `introducer` stands in the text. */
  predicate LastPlace(name: string, introducer: string, p: nat) {
    StandsAt(name, introducer, p) && forall q: nat :: p < q <= |name| ==> !StandsAt(name, introducer, q)
  }

  predicate Blankless(name: string) {
    forall i :: 0 <= i < |name| ==> name[i] as int != 32 && name[i] as int != 9
  }

  /** A version is returned for a name without spaces and tabs, behind the last place of a declared introducer, and
      it is all that stands there; for every other name and introducer nothing is. */
  lemma {:induction false} VersionExactly(raw: string, introducer: string)
    ensures forall p: nat :: introducer != "" && LastPlace(Trimmed(raw), introducer, p) && Blankless(Trimmed(raw)) ==>
              OneTokenVersion(raw, introducer) == Trimmed(raw)[p + |introducer|..]
    ensures introducer == "" || !Blankless(Trimmed(raw)) || (forall p: nat :: !LastPlace(Trimmed(raw), introducer, p)) ==>
              OneTokenVersion(raw, introducer) == ""
  {
    hide Trimmed, FindLast, LastPlace;
    var name := Trimmed(raw);
    forall p: nat | LastPlace(name, introducer, p)
      ensures p + |introducer| <= |name| && FindLast(name, introducer, |name|) == Some(p)
    {
      FoundIs(name, introducer, p);
    }
    if FindLast(name, introducer, |name|).Some? {
      FoundLast(name, introducer);
    }
    BlanklessIs(name);
  }

  lemma {:induction false} BlanklessIs(name: string)
    ensures Blankless(name) <==> OneToken(name)
  {
  }

  lemma {:induction false} FoundLast(name: string, introducer: string)
    requires FindLast(name, introducer, |name|).Some?
    ensures LastPlace(name, introducer, FindLast(name, introducer, |name|).value)
  {
    hide FindLast;
    var p := FindLast(name, introducer, |name|).value;
    forall q: nat | p < q <= |name|
      ensures !StandsAt(name, introducer, q)
    {
      assert !OccursAt(name, introducer, q);
    }
  }

  lemma {:induction false} FoundIs(name: string, introducer: string, p: nat)
    requires LastPlace(name, introducer, p)
    ensures p + |introducer| <= |name| && FindLast(name, introducer, |name|) == Some(p)
  {
    hide FindLast;
    assert OccursAt(name, introducer, p);
    var found := FindLast(name, introducer, |name|);
    assert StandsAt(name, introducer, found.value);
  }

  /** `one_token_version_of`. */
  method OneTokenVersionOf(raw: string, introducer: string) returns (version: string)
    ensures version == OneTokenVersion(raw, introducer)
  {
    hide Trimmed, FindLast;
    var name := Trimmed(raw);
    if introducer == "" {
      return "";
    }
    for i := 0 to |name|
      invariant forall j :: 0 <= j < i ==> !TrimByte(name[j])
    {
      if TrimByte(name[i]) {
        return "";
      }
    }
    var found := FindLast(name, introducer, |name|);
    return if found.None? then "" else name[found.value + |introducer|..];
  }

  /** For every version a recognizer returns, class and discriminant are complements: they claim the same
      spans of the trimmed name. */
  lemma {:induction false} ReturnedVersionAgrees(raw: string, introducer: string)
    ensures var name, version := Trimmed(raw), OneTokenVersion(raw, introducer);
      var spans := if version == "" then Spans(name, 0) else VersionedSpans(name, version);
      && Placed(spans, 0, |name|)
      && VersionedClass(raw, version) == MaskedFrom(name, 0, spans)
      && VersionedWindow(raw, version) == Envelope(spans)
  {
    var name, version := Trimmed(raw), OneTokenVersion(raw, introducer);
    var before, after := TrimmedIs(raw);
    TrimmedFixed(name);
    hide Trimmed, Spans, OneTokenVersion, MaskedFrom, Placed, IsTrimmed, OneToken;
    if version == "" {
      SpansPlaced(name, 0);
    } else {
      TokenHead(name, version);
      VersionedClassAgrees(name, version);
    }
  }

  lemma {:induction false} TokenHead(name: string, version: string)
    requires OneToken(name) && HasVersion(name, version)
    ensures IsTrimmed(HeadOf(name, version))
  {
  }

  /** A version that no recognizer returns, behind a blank, is another matter: the head is trimmed on its own,
      and the class loses the blank. */
  lemma {:induction false} BlankBeforeVersion()
    ensures IsTrimmed("a b") && HasVersion("a b", "b") && Placed(VersionedSpans("a b", "b"), 0, 3)
    ensures VersionedClass("a b", "b") != MaskedFrom("a b", 0, VersionedSpans("a b", "b"))
  {
    assert HeadOf("a b", "b") == "a ";
    hide Spans, Trimmed, VersionedClass, MaskedFrom;
    VersionedClassAgrees("a b", "b");
  }
}
