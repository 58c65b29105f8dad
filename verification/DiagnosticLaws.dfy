/**
 The diagnostic rule of the masker told from a token's segments as they are written: which cores are masked, and
 when the token is claimed at all.
 */
module DiagnosticLaws {
  import opened Wrappers
  import opened Text
  import opened MaskPieces
  import opened MaskRules
  import opened MaskPaths
  import opened MaskLaws
  import opened TokenShapes
  import opened PathLaws

  // ----- segments -----

  /** Segments with a colon or a slash between each two. */
  function Joined(ss: seq<string>, ds: seq<char>): string
    requires |ss| == |ds| + 1
    decreases |ss|
  {
    if ds == [] then ss[0] else ss[0] + ([ds[0]] + Joined(ss[1..], ds[1..]))
  }

  predicate Segment(s: string) {
    forall i :: 0 <= i < |s| ==> s[i] != ':' && s[i] != '/' && s[i] != '\\'
  }

  predicate WellJoined(ss: seq<string>, ds: seq<char>)
    requires |ss| == |ds| + 1
  {
    (forall i :: 0 <= i < |ss| ==> Segment(ss[i])) && forall i :: 0 <= i < |ds| ==> ds[i] == ':' || ds[i] == '/'
  }

  predicate LetterOrNumeral(c: char) {
    Letter(c) || Numeral(c)
  }

  /** The core of a segment: from its first letter or digit to its last, at its end when it has none. */
  predicate CoreCut(s: string, lead: nat, trail: nat) {
    && lead <= trail <= |s| && (forall i :: 0 <= i < lead ==> !LetterOrNumeral(s[i])) && (forall i :: trail <= i < |s| ==> !LetterOrNumeral(s[i]))
    && if lead < trail then LetterOrNumeral(s[lead]) && LetterOrNumeral(s[trail - 1]) else lead == |s|
  }

  lemma {:induction false} CoreIs(s: string, lead: nat, trail: nat)
    requires CoreCut(s, lead, trail)
    ensures CoreOf(s) == Core(lead, trail)
  {
    hide LetterOrNumeral;
    AlnumEverywhere();
    var head := s[0..lead];
    assert forall i :: 0 <= i < |head| ==> head[i] == s[i];
    RunBetween(s, 0, lead, NotAlnum);
    CoreEndIs(s, lead, |s|, trail);
  }

  lemma {:induction false} AlnumEverywhere()
    ensures forall c :: LetterOrNumeral(c) <==> Alnum(c)
  {
  }

  lemma {:induction false} CoreEndIs(s: string, lead: nat, at: nat, trail: nat)
    requires lead <= trail <= at <= |s| && forall i :: trail <= i < at ==> !Alnum(s[i])
    requires lead < trail ==> Alnum(s[trail - 1])
    ensures CoreEnd(s, lead, at) == trail
    decreases at
  {
    if at > trail {
      CoreEndIs(s, lead, at - 1, trail);
    }
  }

  /** A segment behind the core `prev`: a digit-led core is masked, except a short number behind a status word. */
  function Reading(s: string, lead: nat, trail: nat, prev: string): seq<Piece>
    requires lead <= trail <= |s|
  {
    var core := s[lead..trail];
    if core == "" || !Numeral(core[0]) || ShortStatus(core, prev) then [Kept(s)] else MaskRange(s, lead, trail)
  }

  lemma {:induction false} ReadingIs(s: string, lead: nat, trail: nat, prev: string)
    requires CoreCut(s, lead, trail)
    ensures Decided(s, prev) == Reading(s, lead, trail, prev) && CoreOfSegment(s) == s[lead..trail]
    ensures LetterLed(s) <==> lead < trail && Letter(s[lead])
  {
    hide ShortStatus, StatusKeyword, SpelledAs, CoreCut, CoreOf, AllDigit, MaskRange, SourceOf;
    CoreIs(s, lead, trail);
    CutBounds(s, lead, trail);
    ShortStatusIs(s[lead..trail], prev);
    assert lead < trail ==> s[lead..trail][0] == s[lead];
  }

  lemma {:induction false} CutBounds(s: string, lead: nat, trail: nat)
    requires CoreCut(s, lead, trail)
    ensures lead <= trail <= |s|
  {
  }

  type Bounds = (nat, nat)

  predicate CutsFit(ss: seq<string>, cuts: seq<Bounds>) {
    |cuts| == |ss| && forall i :: 0 <= i < |ss| ==> CoreCut(ss[i], cuts[i].0, cuts[i].1)
  }

  lemma {:induction false} CutFits(ss: seq<string>, cuts: seq<Bounds>, i: nat)
    requires CutsFit(ss, cuts) && i < |ss|
    ensures CoreCut(ss[i], cuts[i].0, cuts[i].1) && cuts[i].0 <= cuts[i].1 <= |ss[i]|
  {
  }

  /** Every segment's reading behind the core before it, the delimiters kept. */
  function Readings(ss: seq<string>, ds: seq<char>, cuts: seq<Bounds>, prev: string): seq<Piece>
    requires |ss| == |ds| + 1 && CutsFit(ss, cuts)
    decreases |ss|
  {
    CutFits(ss, cuts, 0);
    var core := ss[0][cuts[0].0..cuts[0].1];
    Reading(ss[0], cuts[0].0, cuts[0].1, prev) +
    if ds == [] then [] else [Kept([ds[0]])] + Readings(ss[1..], ds[1..], cuts[1..], core)
  }

  ghost predicate SomeLetterLed(ss: seq<string>, cuts: seq<Bounds>)
    requires CutsFit(ss, cuts)
  {
    exists i :: 0 <= i < |ss| && LedByLetter(ss, cuts, i)
  }

  predicate LedByLetter(ss: seq<string>, cuts: seq<Bounds>, i: nat)
    requires CutsFit(ss, cuts) && i < |ss|
  {
    CutFits(ss, cuts, i);
    cuts[i].0 < cuts[i].1 && Letter(ss[i][cuts[i].0])
  }

  lemma {:induction false} JoinedHead(tok: string, start: nat, ss: seq<string>, ds: seq<char>)
    requires |ss| == |ds| + 1 && WellJoined(ss, ds) && start <= |tok| && tok[start..] == Joined(ss, ds)
    ensures var end := start + |ss[0]|;
      && end <= |tok| && tok[start..end] == ss[0] && RunEnd(tok, start, NotSegmentEnd) == end
      && (ds == [] ==> end == |tok|)
      && (ds != [] ==> end < |tok| && tok[end] == ds[0] && tok[end + 1..] == Joined(ss[1..], ds[1..]) && WellJoined(ss[1..], ds[1..]))
  {
    hide RunEnd;
    var end := start + |ss[0]|;
    if ds == [] {
      assert tok[start..end] == ss[0];
    } else {
      Cut(tok, start, ss[0], [ds[0]], Joined(ss[1..], ds[1..]));
      assert tok[end] == tok[end..][0] == ds[0];
    }
    assert Segment(ss[0]);
    RunBetween(tok, start, end, NotSegmentEnd);
  }

  lemma {:induction false} ReadingsAre(tok: string, start: nat, ss: seq<string>, ds: seq<char>, cuts: seq<Bounds>, prev: string)
    requires |ss| == |ds| + 1 && WellJoined(ss, ds) && CutsFit(ss, cuts) && start <= |tok| && tok[start..] == Joined(ss, ds)
    ensures SegmentsShown(tok, start, prev) == Readings(ss, ds, cuts, prev)
    ensures HasAnchor(tok, start) <==> SomeLetterLed(ss, cuts)
    decreases |ss|
  {
    hide RunEnd, Reading, Decided, CoreCut, WellJoined, LetterLed, CoreOfSegment, Joined;
    JoinedHead(tok, start, ss, ds);
    CutFits(ss, cuts, 0);
    CutsTail(ss, cuts);
    ReadingIs(ss[0], cuts[0].0, cuts[0].1, prev);
    if ds == [] {
      LedAlone(ss, cuts);
    } else {
      var core := ss[0][cuts[0].0..cuts[0].1];
      ReadingsAre(tok, start + |ss[0]| + 1, ss[1..], ds[1..], cuts[1..], core);
      LedFirstOrLater(ss, cuts);
    }
  }

  lemma {:induction false} LedAlone(ss: seq<string>, cuts: seq<Bounds>)
    requires CutsFit(ss, cuts) && |ss| == 1
    ensures SomeLetterLed(ss, cuts) <==> LedByLetter(ss, cuts, 0)
  {
    hide CoreCut;
  }

  lemma {:induction false} CutsTail(ss: seq<string>, cuts: seq<Bounds>)
    requires CutsFit(ss, cuts) && ss != []
    ensures CutsFit(ss[1..], cuts[1..])
  {
    hide CoreCut;
  }

  lemma {:induction false} LedFirstOrLater(ss: seq<string>, cuts: seq<Bounds>)
    requires CutsFit(ss, cuts) && |ss| > 1
    ensures CutsFit(ss[1..], cuts[1..]) && (SomeLetterLed(ss, cuts) <==> LedByLetter(ss, cuts, 0) || SomeLetterLed(ss[1..], cuts[1..]))
  {
    hide CoreCut;
    if SomeLetterLed(ss, cuts) {
      var i :| 0 <= i < |ss| && LedByLetter(ss, cuts, i);
      if i > 0 {
        assert LedByLetter(ss[1..], cuts[1..], i - 1);
      }
    }
    if SomeLetterLed(ss[1..], cuts[1..]) {
      var i :| 0 <= i < |ss| - 1 && LedByLetter(ss[1..], cuts[1..], i);
      assert LedByLetter(ss, cuts, i + 1);
    }
  }

  /** The last names of the declared roots. */
  predicate EndsARoot(s: string) {
    s in ["tmp", "folders", "b", "store", "Temp"]
  }

  lemma {:induction false} RootNameIs(s: string)
    ensures !EndsARoot(s) ==> NoRootName(s)
  {
  }

  lemma {:induction false} JoinedRootFree(tok: string, start: nat, ss: seq<string>, ds: seq<char>)
    requires |ss| == |ds| + 1 && WellJoined(ss, ds) && start <= |tok| && tok[start..] == Joined(ss, ds) && forall i :: 0 <= i < |ss| ==> !EndsARoot(ss[i])
    ensures RootFree(tok, start)
    decreases |ss|
  {
    hide RunEnd, NoRootName, EndsARoot, WellJoined, Joined;
    JoinedHead(tok, start, ss, ds);
    RootNameIs(ss[0]);
    if ds != [] {
      JoinedRootFree(tok, start + |ss[0]| + 1, ss[1..], ds[1..]);
    }
  }

  lemma {:induction false} JoinedNoBackslash(ss: seq<string>, ds: seq<char>)
    requires |ss| == |ds| + 1 && WellJoined(ss, ds)
    ensures '\\' !in Joined(ss, ds)
    decreases |ss|
  {
    assert Segment(ss[0]);
    if ds != [] {
      JoinedNoBackslash(ss[1..], ds[1..]);
    }
  }

  /** A colon stands before a digit. */
  predicate ColonNumeral(tok: string) {
    exists i :: 0 <= i < |tok| - 1 && tok[i] == ':' && Numeral(tok[i + 1])
  }

  /** A token of plain segments none of which ends a declared root: claimed if and only if a colon stands before a
      digit, some core is led by a letter and some core is masked, and then every segment has its reading. */
  lemma {:induction false} DiagnosticExactly(tok: string, ss: seq<string>, ds: seq<char>, cuts: seq<Bounds>)
    requires |ss| == |ds| + 1 && WellJoined(ss, ds) && tok == Joined(ss, ds) && CutsFit(ss, cuts) && forall i :: 0 <= i < |ss| ==> !EndsARoot(ss[i])
    ensures var ps := Readings(ss, ds, cuts, "");
      DiagnosticComposite(tok) == if ColonNumeral(tok) && SomeLetterLed(ss, cuts) && Masks(ps) then Some(ps) else None
  {
    hide DiagnosticComposite, Readings, SomeLetterLed, EndsARoot, WellJoined, Joined, CoreCut, SegmentsShown, HasAnchor, RootFree, Masks;
    assert tok[0..] == tok;
    ReadingsAre(tok, 0, ss, ds, cuts, "");
    JoinedRootFree(tok, 0, ss, ds);
    JoinedNoBackslash(ss, ds);
    SegmentsExactly(tok);
    assert HasColonDigit(tok) <==> ColonNumeral(tok);
  }

  // ----- the walk over all segments, roots and backslashes included -----

  /** A component with the byte before it and its place. */
  datatype Passed = Passed(text: string, before: char, begin: nat)

  /** What a walk without any window keeps: every component so far. */
  datatype Reach = Reach(pieces: seq<Piece>, passed: seq<Passed>, prev: string, anchored: bool)

  /** A declared root ends at the last component passed. */
  ghost predicate RootAmong(tok: string, passed: seq<Passed>) {
    exists k :: 0 <= k < |ROOTS| && RootTail(tok, passed, k)
  }

  predicate RootTail(tok: string, passed: seq<Passed>, k: nat)
    requires k < |ROOTS|
  {
    PassedBy(tok, passed, ROOTS[k])
  }

  /** The last components passed spell the root's names, a slash or a backslash before each; a root that is bound to
      the token's start opens its path. */
  predicate PassedBy(tok: string, passed: seq<Passed>, root: Root) {
    0 < |root.segments| <= |passed| && PassedAs(tok, passed[|passed| - |root.segments|..], root)
  }

  predicate PassedAs(tok: string, own: seq<Passed>, root: Root)
    requires 0 < |root.segments| == |own|
  {
    && (forall t :: 0 <= t < |own| ==> own[t].text == root.segments[t] && own[t].before in "/\\")
    && (root.anchor.TokenStart? ==> PathFirstComponent(tok) == Some(own[0].begin))
  }

  function FirstKnown(s: string, i: nat): (lead: nat)
    requires i <= |s|
    ensures i <= lead <= |s| && (forall k :: i <= k < lead ==> !LetterOrNumeral(s[k])) && (lead < |s| ==> LetterOrNumeral(s[lead]))
    decreases |s| - i
  {
    if i < |s| && !LetterOrNumeral(s[i]) then FirstKnown(s, i + 1) else i
  }

  function LastKnown(s: string, lead: nat, i: nat): (trail: nat)
    requires lead <= i <= |s|
    ensures lead <= trail <= i && (forall k :: trail <= k < i ==> !LetterOrNumeral(s[k])) && (trail > lead ==> LetterOrNumeral(s[trail - 1]))
    decreases i
  {
    if i > lead && !LetterOrNumeral(s[i - 1]) then LastKnown(s, lead, i - 1) else i
  }

  /** The bounds of a text's core. */
  function CoreBounds(s: string): (b: Bounds)
    ensures CoreCut(s, b.0, b.1)
  {
    var lead := FirstKnown(s, 0);
    (lead, LastKnown(s, lead, |s|))
  }

  function Middle(s: string): string {
    s[CoreBounds(s).0..CoreBounds(s).1]
  }

  function MiddleMasked(s: string): seq<Piece> {
    MaskRange(s, CoreBounds(s).0, CoreBounds(s).1)
  }

  function ByteBefore(tok: string, begin: nat): char
    requires begin <= |tok|
  {
    if begin == 0 then '\0' else tok[begin - 1]
  }

  /** One part of a segment with backslashes: kept, but masked behind a root. */
  ghost function PartRead(tok: string, r: Reach, part: string, begin: nat): Reach
    requires begin <= |tok|
  {
    if Middle(part) == "" then r.(pieces := r.pieces + [Kept(part)])
    else r.(pieces := r.pieces + (if RootAmong(tok, r.passed) then MiddleMasked(part) else [Kept(part)]),
            passed := r.passed + [Passed(part, ByteBefore(tok, begin), begin)])
  }

  predicate BackslashRuns(seps: seq<string>) {
    forall i :: 0 <= i < |seps| ==> seps[i] != "" && forall k :: 0 <= k < |seps[i]| ==> seps[i][k] == '\\'
  }

  ghost function PartsRead(tok: string, r: Reach, parts: seq<string>, seps: seq<string>, begin: nat): Reach
    requires |parts| == |seps| + 1 && begin + |Printed(parts, seps)| <= |tok|
    decreases |parts|
  {
    var next := PartRead(tok, r, parts[0], begin);
    if seps == [] then next
    else PartsRead(tok, next.(pieces := next.pieces + [Kept(seps[0])]), parts[1..], seps[1..], begin + |parts[0]| + |seps[0]|)
  }

  /** A segment: its parts and the backslashes between them. */
  datatype Parted = Parted(parts: seq<string>, seps: seq<string>)

  function TextOf(g: Parted): string
    requires |g.parts| == |g.seps| + 1
  {
    Printed(g.parts, g.seps)
  }

  predicate PartedWf(g: Parted) {
    && |g.parts| == |g.seps| + 1 && WellPrinted(g.parts, g.seps) && BackslashRuns(g.seps)
    && forall i :: 0 <= i < |TextOf(g)| ==> TextOf(g)[i] != ':' && TextOf(g)[i] != '/'
  }

  /** One segment. Without a core it is kept and forgets the core before it; behind a root its core is masked; a
      letter-led one is kept, part by part when it holds backslashes; a short number behind a status word is kept;
      any other core is masked. */
  ghost function SegmentRead(tok: string, r: Reach, g: Parted, begin: nat): Reach
    requires PartedWf(g) && begin + |TextOf(g)| <= |tok|
  {
    var s := TextOf(g);
    var core := Middle(s);
    var onward := r.(passed := r.passed + [Passed(s, ByteBefore(tok, begin), begin)], prev := core);
    if core == "" then r.(pieces := r.pieces + [Kept(s)], prev := "")
    else if RootAmong(tok, r.passed) then onward.(pieces := r.pieces + MiddleMasked(s))
    else if Letter(core[0]) then
      if g.seps == [] then onward.(pieces := r.pieces + [Kept(s)], anchored := true)
      else PartsRead(tok, r.(anchored := true, prev := core), g.parts, g.seps, begin)
    else if ShortStatus(core, r.prev) then onward.(pieces := r.pieces + [Kept(s)])
    else onward.(pieces := r.pieces + MiddleMasked(s))
  }

  // ----- the walk of the model is this one -----

  function ComponentOf(tok: string, p: Passed): Component {
    Component(p.text, p.before, PathFirstComponent(tok) == Some(p.begin))
  }

  function ComponentsOf(tok: string, passed: seq<Passed>): (cs: seq<Component>)
    ensures |cs| == |passed| && forall i :: 0 <= i < |cs| ==> cs[i] == ComponentOf(tok, passed[i])
  {
    if passed == [] then [] else [ComponentOf(tok, passed[0])] + ComponentsOf(tok, passed[1..])
  }

  ghost predicate Matches(tok: string, w: Walk, r: Reach) {
    && w.pieces == r.pieces && w.anchored == r.anchored && w.prevCore == r.prev
    && w.window == LastOnes(ComponentsOf(tok, r.passed)) && (w.maskNext <==> RootAmong(tok, r.passed))
  }

  lemma {:induction false} PassedByIs(tok: string, passed: seq<Passed>, root: Root)
    ensures EndsWindow(root, ComponentsOf(tok, passed)) <==> PassedBy(tok, passed, root)
  {
    hide PathFirstComponent, Spells, PassedAs, ComponentOf, ComponentsOf;
    var n := |root.segments|;
    if 0 < n <= |passed| {
      ComponentsFrom(tok, passed, |passed| - n);
      PassedAsIs(tok, passed[|passed| - n..], root);
    }
  }

  lemma {:induction false} ComponentsFrom(tok: string, passed: seq<Passed>, k: nat)
    requires k <= |passed|
    ensures ComponentsOf(tok, passed)[k..] == ComponentsOf(tok, passed[k..])
  {
    hide ComponentOf;
  }

  lemma {:induction false} PassedAsIs(tok: string, own: seq<Passed>, root: Root)
    requires 0 < |root.segments| == |own|
    ensures Spells(root, ComponentsOf(tok, own)) <==> PassedAs(tok, own, root)
  {
    hide PathFirstComponent, RootSeparator;
    SeparatorBytes();
    var tail := ComponentsOf(tok, own);
    assert forall t :: 0 <= t < |own| ==> tail[t].text == own[t].text && tail[t].before == own[t].before;
  }

  lemma {:induction false} SeparatorBytes()
    ensures forall c :: RootSeparator(c) <==> c in "/\\"
  {
  }

  lemma {:induction false} RootAmongIs(tok: string, passed: seq<Passed>)
    ensures RootEndingAt(LastOnes(ComponentsOf(tok, passed))).Some? <==> RootAmong(tok, passed)
  {
    hide PassedBy, EndsWindow, LastOnes;
    ScopeDecided(ComponentsOf(tok, passed));
    forall k | 0 <= k < |ROOTS|
      ensures EndsWindow(ROOTS[k], ComponentsOf(tok, passed)) <==> RootTail(tok, passed, k)
    {
      PassedByIs(tok, passed, ROOTS[k]);
    }
  }

  /** Entering a component. */
  lemma {:induction false} EnteredMatches(tok: string, w: Walk, r: Reach, text: string, begin: nat)
    requires Matches(tok, w, r) && begin <= |tok|
    ensures Matches(tok, Entered(w, text, SepBefore(tok, begin), PathFirstComponent(tok) == Some(begin)),
                    r.(passed := r.passed + [Passed(text, ByteBefore(tok, begin), begin)]))
  {
    hide RootEndingAt, RootAmong, PathFirstComponent, LastOnes, Push;
    var p := Passed(text, ByteBefore(tok, begin), begin);
    PushLast(ComponentsOf(tok, r.passed), ComponentOf(tok, p));
    assert ComponentsOf(tok, r.passed + [p]) == ComponentsOf(tok, r.passed) + [ComponentOf(tok, p)];
    RootAmongIs(tok, r.passed + [p]);
  }

  lemma {:induction false} MiddleIs(s: string)
    ensures CoreOf(s) == Core(CoreBounds(s).0, CoreBounds(s).1)
    ensures Middle(s) == "" <==> CoreOf(s).lead == CoreOf(s).trail
    ensures Middle(s) != "" ==> CoreOf(s).lead < CoreOf(s).trail && CorePieces(s, CoreOf(s)) == MiddleMasked(s)
  {
    hide CoreOf, MaskRange, SourceOf;
    CoreIs(s, CoreBounds(s).0, CoreBounds(s).1);
  }

  lemma {:induction false} PartMatches(tok: string, w: Walk, r: Reach, part: string, begin: nat)
    requires Matches(tok, w, r) && begin <= |tok|
    ensures Matches(tok, BackslashPart(tok, w, part, begin), PartRead(tok, r, part, begin))
  {
    hide CoreOf, CorePieces, MiddleMasked, Middle, RootAmong, PathFirstComponent, Entered, SepBefore, ByteBefore;
    MiddleIs(part);
    if Middle(part) != "" {
      var masks := RootAmong(tok, r.passed);
      var shown, seen := if masks then MiddleMasked(part) else [Kept(part)], if w.maskNext then Added(w, CorePieces(part, CoreOf(part))) else Added(w, [Kept(part)]);
      EnteredMatches(tok, seen, r.(pieces := r.pieces + shown), part, begin);
    }
  }

  lemma {:induction false} KeptMatches(tok: string, w: Walk, r: Reach, text: string)
    requires Matches(tok, w, r)
    ensures Matches(tok, Added(w, [Kept(text)]), r.(pieces := r.pieces + [Kept(text)]))
  {
    hide RootAmong;
  }

  /** The walk over a segment's parts. */
  lemma {:induction false} PartsMatch(tok: string, w: Walk, r: Reach, seg: string, abs: nat, at: nat, parts: seq<string>, seps: seq<string>)
    requires |parts| == |seps| + 1 && WellPrinted(parts, seps) && BackslashRuns(seps) && at <= |seg| && abs + |seg| <= |tok|
    requires seg[at..] == Printed(parts, seps) && Matches(tok, w, r)
    ensures Matches(tok, BackslashWalk(tok, w, seg, abs, at), PartsRead(tok, r, parts, seps, abs + at))
    decreases |parts|
  {
    hide Matches, BackslashPart, PartRead, WellPrinted, SkipSeparator, RootSeparator, FirstOf, BackslashRuns;
    PrintedHead(seg, at, parts, seps);
    PartMatches(tok, w, r, parts[0], abs + at);
    FirstBackslash(seg, at, parts, seps);
    if seps == [] {
      assert seg[at..] == parts[0];
    } else {
      var end := at + |parts[0]|;
      var next, read := BackslashPart(tok, w, parts[0], abs + at), PartRead(tok, r, parts[0], abs + at);
      assert seg[end..end + |seps[0]|] == seps[0] by {
        Cut(seg, at, parts[0], seps[0], Printed(parts[1..], seps[1..]));
        assert seg[end..end + |seps[0]|] == seg[end..][..|seps[0]|];
      }
      KeptMatches(tok, next, read, seps[0]);
      TailWellPrinted(parts, seps);
      TailRuns(seps);
      PartsMatch(tok, Added(next, [Kept(seps[0])]), read.(pieces := read.pieces + [Kept(seps[0])]), seg, abs, end + |seps[0]|, parts[1..], seps[1..]);
    }
  }

  lemma {:induction false} TailRuns(seps: seq<string>)
    requires BackslashRuns(seps) && seps != []
    ensures BackslashRuns(seps[1..])
  {
  }

  lemma {:induction false} FirstBackslash(seg: string, at: nat, parts: seq<string>, seps: seq<string>)
    requires |parts| == |seps| + 1 && WellPrinted(parts, seps) && BackslashRuns(seps) && at <= |seg| && seg[at..] == Printed(parts, seps)
    ensures FirstOf(seg, '\\', at) == if seps == [] then None else Some(at + |parts[0]|)
  {
    if seps == [] {
      assert forall i :: at <= i < |seg| ==> seg[i] == seg[at..][i - at];
      FirstOfAbsent(seg, '\\', at);
    } else {
      Cut(seg, at, parts[0], seps[0], Printed(parts[1..], seps[1..]));
      var end := at + |parts[0]|;
      assert seg[end] == seg[end..][0] == seps[0][0];
      assert forall i :: at <= i < end ==> seg[i] == seg[at..end][i - at];
      FirstOfIs(seg, '\\', at, end);
    }
  }

  lemma {:induction false} FirstOfAbsent(s: string, c: char, from: nat)
    requires from <= |s| && forall i :: from <= i < |s| ==> s[i] != c
    ensures FirstOf(s, c, from) == None
  {
  }

  lemma {:induction false} HoldsBackslash(g: Parted)
    requires PartedWf(g)
    ensures '\\' in TextOf(g) <==> g.seps != []
  {
    hide BackslashRuns, WellPrinted;
    assert TextOf(g)[0..] == TextOf(g);
    FirstBackslash(TextOf(g), 0, g.parts, g.seps);
    if g.seps == [] && '\\' in TextOf(g) {
      var i :| 0 <= i < |TextOf(g)| && TextOf(g)[i] == '\\';
      FirstOfBelow(TextOf(g), '\\', 0, i);
    }
  }

  lemma {:induction false} FirstOfBelow(s: string, c: char, from: nat, k: nat)
    requires from <= k < |s| && s[k] == c
    ensures FirstOf(s, c, from).Some?
    decreases k - from
  {
    if from < k {
      FirstOfBelow(s, c, from + 1, k);
    }
  }

  /** The core of a segment as the model finds it. */
  lemma {:induction false} CoreTextIs(s: string)
    ensures CoreOfSegment(s) == Middle(s)
    ensures Middle(s) != "" ==> (Alpha(Middle(s)[0]) <==> Letter(Middle(s)[0]))
  {
    hide CoreOf;
    MiddleIs(s);
  }

  lemma {:induction false} SegmentMatches(tok: string, w: Walk, r: Reach, g: Parted, begin: nat)
    requires PartedWf(g) && begin + |TextOf(g)| <= |tok| && tok[begin..begin + |TextOf(g)|] == TextOf(g) && Matches(tok, w, r)
    ensures Matches(tok, Flushed(tok, w, begin, begin + |TextOf(g)|), SegmentRead(tok, r, g, begin))
  {
    hide CoreOf, CorePieces, MiddleMasked, Middle, RootAmong, PathFirstComponent, Entered, SepBefore, ByteBefore, ShortStatus, StatusKeyword,
      AllDigit, BackslashWalk, PartsRead, BackslashRuns, WellPrinted, Printed, LastOnes, ComponentsOf;
    var s := TextOf(g);
    var core := Middle(s);
    MiddleIs(s);
    CoreTextIs(s);
    if core != "" {
      ShortStatusIs(core, r.prev);
      HoldsBackslash(g);
      var masked := r.(pieces := r.pieces + MiddleMasked(s), prev := core);
      var kept := r.(pieces := r.pieces + [Kept(s)], prev := core);
      if RootAmong(tok, r.passed) {
        EnteredMatches(tok, Added(w, CorePieces(s, CoreOf(s))).(prevCore := core), masked, s, begin);
      } else if Letter(core[0]) {
        var anchored := w.(anchored := true, prevCore := core);
        if g.seps == [] {
          EnteredMatches(tok, Added(w, [Kept(s)]).(anchored := true, prevCore := core), kept.(anchored := true), s, begin);
        } else {
          assert s[0..] == s;
          PartsMatch(tok, anchored, r.(anchored := true, prev := core), s, begin, 0, g.parts, g.seps);
        }
      } else if ShortStatus(core, r.prev) {
        EnteredMatches(tok, Added(w, [Kept(s)]).(prevCore := core), kept, s, begin);
      } else {
        EnteredMatches(tok, Added(w, CorePieces(s, CoreOf(s))).(prevCore := core), masked, s, begin);
      }
    }
  }

  // ----- whole tokens -----

  predicate Segmented(gs: seq<Parted>, ds: seq<char>) {
    |gs| == |ds| + 1 && (forall i :: 0 <= i < |gs| ==> PartedWf(gs[i])) && forall i :: 0 <= i < |ds| ==> ds[i] == ':' || ds[i] == '/'
  }

  function JoinedSegments(gs: seq<Parted>, ds: seq<char>): string
    requires Segmented(gs, ds)
    decreases |gs|
  {
    if ds == [] then TextOf(gs[0]) else TextOf(gs[0]) + ([ds[0]] + JoinedSegments(gs[1..], ds[1..]))
  }

  /** The segments one after the other, each delimiter kept. */
  ghost function SegmentsRead(tok: string, r: Reach, gs: seq<Parted>, ds: seq<char>, begin: nat): Reach
    requires Segmented(gs, ds) && begin + |JoinedSegments(gs, ds)| <= |tok|
    decreases |gs|
  {
    var next := SegmentRead(tok, r, gs[0], begin);
    if ds == [] then next
    else SegmentsRead(tok, next.(pieces := next.pieces + [Kept([ds[0]])]), gs[1..], ds[1..], begin + |TextOf(gs[0])| + 1)
  }

  lemma {:induction false} SegmentsHead(tok: string, start: nat, gs: seq<Parted>, ds: seq<char>)
    requires Segmented(gs, ds) && start <= |tok| && tok[start..] == JoinedSegments(gs, ds)
    ensures var end := start + |TextOf(gs[0])|;
      && end <= |tok| && tok[start..end] == TextOf(gs[0]) && RunEnd(tok, start, NotSegmentEnd) == end
      && (ds == [] ==> end == |tok|)
      && (ds != [] ==> end < |tok| && tok[end] == ds[0] && Segmented(gs[1..], ds[1..]) && tok[end + 1..] == JoinedSegments(gs[1..], ds[1..]))
  {
    hide RunEnd, WellPrinted, BackslashRuns, Printed;
    var text := TextOf(gs[0]);
    var end := start + |text|;
    if ds == [] {
      assert tok[start..end] == text;
    } else {
      Cut(tok, start, text, [ds[0]], JoinedSegments(gs[1..], ds[1..]));
      assert tok[end] == tok[end..][0] == ds[0];
    }
    RunBetween(tok, start, end, NotSegmentEnd);
  }

  lemma {:induction false} SegmentsMatch(tok: string, w: Walk, r: Reach, gs: seq<Parted>, ds: seq<char>, start: nat)
    requires Segmented(gs, ds) && start <= |tok| && tok[start..] == JoinedSegments(gs, ds) && Matches(tok, w, r)
    ensures Matches(tok, SegmentWalk(tok, w, start), SegmentsRead(tok, r, gs, ds, start))
    decreases |gs|
  {
    hide Matches, Flushed, SegmentRead, RunEnd, PartedWf, TextOf, Segmented;
    SegmentsHead(tok, start, gs, ds);
    FirstWf(gs, ds);
    SegmentMatches(tok, w, r, gs[0], start);
    if ds != [] {
      var end := start + |TextOf(gs[0])|;
      var next, read := Flushed(tok, w, start, end), SegmentRead(tok, r, gs[0], start);
      KeptMatches(tok, next, read, [ds[0]]);
      SegmentsMatch(tok, Added(next, [Kept([ds[0]])]), read.(pieces := read.pieces + [Kept([ds[0]])]), gs[1..], ds[1..], end + 1);
    }
  }

  lemma {:induction false} FirstWf(gs: seq<Parted>, ds: seq<char>)
    requires Segmented(gs, ds)
    ensures |gs| == |ds| + 1 && PartedWf(gs[0]) && |gs[0].parts| == |gs[0].seps| + 1
  {
    hide WellPrinted, BackslashRuns, TextOf;
  }

  const NOWHERE := Reach([], [], "", false)

  lemma {:induction false} FreshMatches(tok: string)
    ensures Matches(tok, FRESH, NOWHERE)
  {
    hide PassedBy;
    forall k | 0 <= k < |ROOTS|
      ensures !RootTail(tok, [], k)
    {
      PassedNone(tok, ROOTS[k]);
    }
  }

  lemma {:induction false} PassedNone(tok: string, root: Root)
    ensures !PassedBy(tok, [], root)
  {
  }

  /** The diagnostic rule on any token: claimed if and only if a colon stands before a digit, a letter-led core
      anchors it and some core is masked, and then as the segments read one after the other, every component passed
      kept in mind instead of the last three. */
  lemma {:induction false} DiagnosticReads(tok: string, gs: seq<Parted>, ds: seq<char>)
    requires Segmented(gs, ds) && tok == JoinedSegments(gs, ds)
    ensures var r := SegmentsRead(tok, NOWHERE, gs, ds, 0);
      DiagnosticComposite(tok) == if ColonNumeral(tok) && r.anchored && Masks(r.pieces) then Some(r.pieces) else None
  {
    hide DiagnosticComposite, SegmentWalk, SegmentsRead, Segmented, JoinedSegments, RootAmong, Masks, ColonNumeral, HasColonDigit, LastOnes, ComponentsOf;
    assert tok[0..] == tok;
    FreshMatches(tok);
    SegmentsMatch(tok, FRESH, NOWHERE, gs, ds, 0);
    CompositeIs(tok);
    ColonNumeralIs(tok);
  }

  lemma {:induction false} ColonNumeralIs(tok: string)
    ensures HasColonDigit(tok) <==> ColonNumeral(tok)
  {
  }

  // ----- every token is written so -----

  lemma {:induction false} SegmentsExist(tok: string) returns (gs: seq<Parted>, ds: seq<char>)
    ensures Segmented(gs, ds) && JoinedSegments(gs, ds) == tok
    decreases |tok|
  {
    hide PartedWf, RunEnd, Printed;
    var end := RunEnd(tok, 0, NotSegmentEnd);
    var head := tok[..end];
    forall i | 0 <= i < end
      ensures head[i] != ':' && head[i] != '/'
    {
      RunByte(tok, 0, NotSegmentEnd, i);
    }
    var g := PartsExist(head);
    if end == |tok| {
      gs, ds := [g], [];
      assert head == tok;
    } else {
      gs, ds := SegmentsExist(tok[end + 1..]);
      var after, marks := gs, ds;
      gs, ds := [g] + gs, [tok[end]] + ds;
      assert gs[1..] == after && ds[1..] == marks;
      assert tok == head + ([tok[end]] + tok[end + 1..]);
    }
  }

  lemma {:induction false} PartsExist(s: string) returns (g: Parted)
    requires forall i :: 0 <= i < |s| ==> s[i] != ':' && s[i] != '/'
    ensures PartedWf(g) && TextOf(g) == s
  {
    hide WellPrinted, Printed, Separator;
    var cs, seps := PrintedExists(s);
    g := Parted(cs, seps);
    forall i | 0 <= i < |seps|
      ensures seps[i] != "" && forall k :: 0 <= k < |seps[i]| ==> seps[i][k] == '\\'
    {
      SeparatorAt(cs, seps, i);
    }
  }

  lemma {:induction false} SeparatorAt(cs: seq<string>, seps: seq<string>, i: nat)
    requires |cs| == |seps| + 1 && WellPrinted(cs, seps) && i < |seps| && '/' !in Printed(cs, seps)
    ensures seps[i] != "" && forall k :: 0 <= k < |seps[i]| ==> seps[i][k] == '\\'
    decreases i
  {
    hide WellPrinted, Separator;
    var rest := Printed(cs[1..], seps[1..]);
    var text := cs[0] + (seps[0] + rest);
    assert forall k :: 0 <= k < |seps[0]| ==> text[|cs[0]| + k] == seps[0][k];
    assert forall k :: 0 <= k < |rest| ==> text[|cs[0]| + |seps[0]| + k] == rest[k];
    if i == 0 {
      SeparatorBy(cs, seps);
    } else {
      TailWellPrinted(cs, seps);
      SeparatorAt(cs[1..], seps[1..], i - 1);
    }
  }

  lemma {:induction false} SeparatorBy(cs: seq<string>, seps: seq<string>)
    requires |cs| == |seps| + 1 && WellPrinted(cs, seps) && seps != [] && '/' !in seps[0]
    ensures seps[0] != "" && forall k :: 0 <= k < |seps[0]| ==> seps[0][k] == '\\'
  {
  }
}
