/**
 The path rules of the stateless masker (core/src/mask/mask.cpp): the declared ephemeral roots, the
 standalone root rule, and the diagnostic composite that walks a token's segments.
 */
module MaskPaths {
  import opened Wrappers
  import opened Text
  import opened MaskPieces
  import opened MaskRules

  // ----- declared roots -----

  datatype Anchor = TokenStart | Floating
  datatype Scope = Subtree | Instance
  datatype Root = Root(segments: seq<string>, anchor: Anchor, scope: Scope)

  const ROOTS: seq<Root> := [
    Root(["tmp"], TokenStart, Subtree),
    Root(["var", "tmp"], TokenStart, Subtree),
    Root(["var", "folders"], TokenStart, Subtree),
    Root([".conan2", "p", "b"], Floating, Instance),
    Root(["nix", "store"], TokenStart, Instance),
    Root(["private", "var", "folders"], TokenStart, Subtree),
    Root(["private", "tmp"], TokenStart, Subtree),
    Root(["AppData", "Local", "Temp"], Floating, Subtree)]

  const WINDOW: nat := 3

  predicate RootSeparator(c: char) {
    c == '/' || c == '\\'
  }

  predicate NotSeparator(c: char) {
    !RootSeparator(c)
  }

  predicate Backslash(c: char) {
    c == '\\'
  }

  /** Past the separator at `pos`: one slash, or a whole run of backslashes. */
  function SkipSeparator(tok: string, pos: nat): (e: nat)
    requires pos < |tok| && RootSeparator(tok[pos])
    ensures pos < e <= |tok|
  {
    if tok[pos] == '/' then pos + 1
    else
      var e := RunEnd(tok, pos, Backslash);
      assert e > pos;
      e
  }

  predicate LeadKeyByte(c: char) {
    Alnum(c) || c == '_' || c == '.' || c == '-'
  }

  const FILE_URL := "file://"

  /** Where the path's first component starts, behind a declared lead; absent when no path opens there. */
  function PathFirstComponent(tok: string): Option<nat> {
    var shell := RunEnd(tok, 0, WrapperOpen);
    var keyEnd := RunEnd(tok, shell, LeadKeyByte);
    var base := if keyEnd > shell && keyEnd < |tok| && tok[keyEnd] == '=' then RunEnd(tok, keyEnd + 1, WrapperOpen) else shell;
    var pos := if FILE_URL <= tok[base..] then base + |FILE_URL| else base;
    if pos >= |tok| || !RootSeparator(tok[pos]) then None else Some(SkipSeparator(tok, pos))
  }

  /** A component of the walk: its text, the byte before it (0 for none) and whether it opens the path. */
  datatype Component = Component(text: string, before: char, atStart: bool)

  function Push(window: seq<Component>, c: Component): (w: seq<Component>)
    ensures 0 < |w| <= |window| + 1 && w[|w| - 1] == c
  {
    if |window| < WINDOW then window + [c] else window[1..] + [c]
  }

  /** A declared root ends at the window's last component, joined by path separators. */
  predicate EndsWindow(root: Root, window: seq<Component>) {
    0 < |root.segments| <= |window| && Spells(root, window[|window| - |root.segments|..])
  }

  /** The components spell the root's segments, a path separator before each. */
  predicate Spells(root: Root, cs: seq<Component>)
    requires 0 < |root.segments| == |cs|
  {
    (forall i :: 0 <= i < |cs| ==> cs[i].text == root.segments[i] && RootSeparator(cs[i].before)) &&
    (root.anchor.TokenStart? ==> cs[0].atStart)
  }

  /** The longest of the roots from the `i`-th on, given the best so far. */
  function LongestRoot(window: seq<Component>, i: nat, best: Option<Root>): Option<Root>
    requires i <= |ROOTS|
    decreases |ROOTS| - i
  {
    if i == |ROOTS| then best
    else if EndsWindow(ROOTS[i], window) && (best.None? || |best.value.segments| < |ROOTS[i].segments|)
    then LongestRoot(window, i + 1, Some(ROOTS[i]))
    else LongestRoot(window, i + 1, best)
  }

  function RootEndingAt(window: seq<Component>): Option<Scope> {
    match LongestRoot(window, 0, None)
    case None => None
    case Some(root) => Some(root.scope)
  }

  /** The scope is that of the longest declared root that ends the window, present exactly when one does. */
  lemma {:induction false} LongestRootWins(window: seq<Component>, i: nat, best: Option<Root>)
    requires i <= |ROOTS| && (best.Some? ==> EndsWindow(best.value, window))
    ensures var r := LongestRoot(window, i, best);
      && (r.None? <==> best.None? && forall k :: i <= k < |ROOTS| ==> !EndsWindow(ROOTS[k], window))
      && (r.Some? ==> EndsWindow(r.value, window) && (best.Some? ==> |best.value.segments| <= |r.value.segments|)
                      && forall k :: i <= k < |ROOTS| && EndsWindow(ROOTS[k], window) ==> |ROOTS[k].segments| <= |r.value.segments|)
    decreases |ROOTS| - i
  {
    hide EndsWindow;
    if i < |ROOTS| {
      if EndsWindow(ROOTS[i], window) && (best.None? || |best.value.segments| < |ROOTS[i].segments|) {
        LongestRootWins(window, i + 1, Some(ROOTS[i]));
      } else {
        LongestRootWins(window, i + 1, best);
      }
    }
  }

  function SepBefore(tok: string, at: nat): char
    requires at <= |tok|
  {
    if at == 0 then '\0' else tok[at - 1]
  }

  datatype RootHit = RootHit(end: nat, scope: Scope)

  /** `first_root`: component by component from `start`, where the first declared root ends. */
  function FirstRoot(tok: string, start: nat, window: seq<Component>): (hit: Option<RootHit>)
    requires start <= |tok|
    ensures hit.Some? ==> start <= hit.value.end <= |tok|
    decreases |tok| - start
  {
    var end := RunEnd(tok, start, NotSeparator);
    var w := Push(window, Component(tok[start..end], SepBefore(tok, start), PathFirstComponent(tok) == Some(start)));
    var scope := RootEndingAt(w);
    if scope.Some? then Some(RootHit(end, scope.value))
    else if end == |tok| then None
    else FirstRoot(tok, SkipSeparator(tok, end), w)
  }

  // ----- where the first root ends, without the window -----

  /** A component of the path and the position behind it. */
  datatype Part = Part(component: Component, end: nat)

  /** All components of a token from `start` on. */
  function Parts(tok: string, start: nat): (ps: seq<Part>)
    requires start <= |tok|
    ensures ps != []
    decreases |tok| - start
  {
    var end := RunEnd(tok, start, NotSeparator);
    var part := Part(Component(tok[start..end], SepBefore(tok, start), PathFirstComponent(tok) == Some(start)), end);
    [part] + (if end == |tok| then [] else Parts(tok, SkipSeparator(tok, end)))
  }

  function Walked(ps: seq<Part>): (cs: seq<Component>)
    ensures |cs| == |ps| && forall i :: 0 <= i < |ps| ==> cs[i] == ps[i].component
  {
    if ps == [] then [] else [ps[0].component] + Walked(ps[1..])
  }

  /** What the window holds after all of `cs` were pushed. */
  function LastOnes(cs: seq<Component>): seq<Component> {
    if |cs| <= WINDOW then cs else cs[|cs| - WINDOW..]
  }

  /** A root ends at the last of the components walked so far, however many there are. */
  ghost predicate AnyRoot(cs: seq<Component>) {
    exists k :: 0 <= k < |ROOTS| && EndsWindow(ROOTS[k], cs)
  }

  /** The scope of the longest such root. */
  ghost predicate LongestScope(cs: seq<Component>, scope: Scope) {
    exists k :: 0 <= k < |ROOTS| && EndsWindow(ROOTS[k], cs) && ROOTS[k].scope == scope && NoneLonger(cs, |ROOTS[k].segments|)
  }

  ghost predicate NoneLonger(cs: seq<Component>, n: nat) {
    forall k :: 0 <= k < |ROOTS| && EndsWindow(ROOTS[k], cs) ==> |ROOTS[k].segments| <= n
  }

  lemma {:induction false} PushLast(cs: seq<Component>, c: Component)
    ensures Push(LastOnes(cs), c) == LastOnes(cs + [c])
  {
  }

  lemma {:induction false} SameTail(root: Root, a: seq<Component>, b: seq<Component>)
    requires |root.segments| <= |a| && |root.segments| <= |b|
    requires a[|a| - |root.segments|..] == b[|b| - |root.segments|..]
    ensures EndsWindow(root, a) <==> EndsWindow(root, b)
  {
    hide Spells;
  }

  lemma {:induction false} AllInWindow(cs: seq<Component>)
    requires |cs| <= WINDOW
    ensures LastOnes(cs) == cs
  {
  }

  lemma {:induction false} TailOfLast(cs: seq<Component>, n: nat)
    requires n <= WINDOW && n <= |cs|
    ensures n <= |LastOnes(cs)| && LastOnes(cs)[|LastOnes(cs)| - n..] == cs[|cs| - n..]
  {
  }

  /** The bounded window decides as all the components would. */
  lemma {:induction false} WindowSuffices(root: Root, cs: seq<Component>)
    requires |root.segments| <= WINDOW
    ensures EndsWindow(root, LastOnes(cs)) <==> EndsWindow(root, cs)
  {
    hide EndsWindow, LastOnes, Spells;
    if |root.segments| <= |cs| {
      TailOfLast(cs, |root.segments|);
      SameTail(root, LastOnes(cs), cs);
    } else {
      AllInWindow(cs);
    }
  }

  lemma {:induction false} RootsAreShort(k: nat)
    requires k < |ROOTS|
    ensures |ROOTS[k].segments| <= WINDOW
  {
  }

  lemma {:induction false} LongestIsDeclared(window: seq<Component>, i: nat, best: Option<Root>)
    requires i <= |ROOTS| && (best.Some? ==> best.value in ROOTS)
    ensures LongestRoot(window, i, best).Some? ==> LongestRoot(window, i, best).value in ROOTS
    decreases |ROOTS| - i
  {
    hide EndsWindow;
    if i < |ROOTS| {
      LongestIsDeclared(window, i + 1, Some(ROOTS[i]));
      LongestIsDeclared(window, i + 1, best);
    }
  }

  lemma {:induction false} ScopeDecided(cs: seq<Component>)
    ensures RootEndingAt(LastOnes(cs)).Some? <==> AnyRoot(cs)
    ensures RootEndingAt(LastOnes(cs)).Some? ==> LongestScope(cs, RootEndingAt(LastOnes(cs)).value)
  {
    var w := LastOnes(cs);
    LongestRootWins(w, 0, None);
    LongestIsDeclared(w, 0, None);
    hide EndsWindow, LongestRoot, LastOnes;
    forall k | 0 <= k < |ROOTS|
      ensures EndsWindow(ROOTS[k], w) <==> EndsWindow(ROOTS[k], cs)
    {
      RootsAreShort(k);
      WindowSuffices(ROOTS[k], cs);
    }
    var r := LongestRoot(w, 0, None);
    if r.Some? {
      var k :| 0 <= k < |ROOTS| && ROOTS[k] == r.value;
      assert EndsWindow(ROOTS[k], cs);
      assert NoneLonger(cs, |ROOTS[k].segments|);
    }
  }

  /** No root ends before part `i`. */
  ghost predicate NoneBefore(done: seq<Component>, ps: seq<Part>, i: nat) {
    forall j :: 0 <= j < i && j < |ps| ==> Rootless(done, ps, j)
  }

  ghost predicate Rootless(done: seq<Component>, ps: seq<Part>, j: nat)
    requires j < |ps|
  {
    !AnyRoot(done + Walked(ps[..j + 1]))
  }

  ghost predicate FirstAt(done: seq<Component>, ps: seq<Part>, i: nat, hit: RootHit) {
    i < |ps| && hit.end == ps[i].end && LongestScope(done + Walked(ps[..i + 1]), hit.scope) && NoneBefore(done, ps, i)
  }

  /** One turn of the component walk. */
  lemma {:induction false} FirstRootTurn(tok: string, start: nat, done: seq<Component>)
    requires start <= |tok|
    ensures var ps := Parts(tok, start);
      var end, all := ps[0].end, done + [ps[0].component];
      && start <= end <= |tok| && (end < |tok| ==> RootSeparator(tok[end]))
      && FirstRoot(tok, start, LastOnes(done)) ==
         (if RootEndingAt(LastOnes(all)).Some? then Some(RootHit(end, RootEndingAt(LastOnes(all)).value))
          else if end == |tok| then None
          else FirstRoot(tok, SkipSeparator(tok, end), LastOnes(all)))
      && ps[1..] == if end == |tok| then [] else Parts(tok, SkipSeparator(tok, end))
  {
    hide RootEndingAt, PathFirstComponent, Push, LastOnes, Every, SkipSeparator;
    var end := RunEnd(tok, start, NotSeparator);
    PushLast(done, Component(tok[start..end], SepBefore(tok, start), PathFirstComponent(tok) == Some(start)));
  }

  /** `first_root` answers the first component at which a declared root ends, with the scope of the longest
      root that ends there, and answers nothing exactly when none ends anywhere. */
  lemma {:induction false} FirstRootExactly(tok: string, start: nat, done: seq<Component>)
    requires start <= |tok|
    ensures var ps := Parts(tok, start);
      match FirstRoot(tok, start, LastOnes(done))
      case None => NoneBefore(done, ps, |ps|)
      case Some(hit) => exists i: nat :: FirstAt(done, ps, i, hit)
    decreases |tok| - start
  {
    hide FirstRoot, Parts, RootEndingAt, AnyRoot, LongestScope, LastOnes, SkipSeparator, RunEnd;
    var ps := Parts(tok, start);
    var c, end := ps[0].component, ps[0].end;
    FirstRootTurn(tok, start, done);
    ScopeDecided(done + [c]);
    HeadWalked(ps);
    if RootEndingAt(LastOnes(done + [c])).Some? {
      assert FirstAt(done, ps, 0, FirstRoot(tok, start, LastOnes(done)).value);
    } else if end < |tok| {
      FirstRootExactly(tok, SkipSeparator(tok, end), done + [c]);
      FirstShifts(done, ps, FirstRoot(tok, start, LastOnes(done)));
    } else {
      FirstShifts(done, ps, None);
    }
  }

  lemma {:induction false} HeadWalked(ps: seq<Part>)
    requires ps != []
    ensures Walked(ps[..1]) == [ps[0].component]
  {
    assert ps[..1][1..] == [];
  }

  lemma {:induction false} WalkedShifts(done: seq<Component>, ps: seq<Part>, j: nat)
    requires ps != [] && j < |ps| - 1
    ensures done + [ps[0].component] + Walked(ps[1..][..j + 1]) == done + Walked(ps[..j + 2])
  {
    assert ps[..j + 2][1..] == ps[1..][..j + 1];
  }

  /** What holds of the later parts, with the first one walked, holds of all parts. */
  lemma {:induction false} FirstShifts(done: seq<Component>, ps: seq<Part>, hit: Option<RootHit>)
    requires ps != [] && !AnyRoot(done + [ps[0].component])
    requires match hit
             case None => NoneBefore(done + [ps[0].component], ps[1..], |ps| - 1)
             case Some(h) => exists i: nat :: FirstAt(done + [ps[0].component], ps[1..], i, h)
    ensures match hit
            case None => NoneBefore(done, ps, |ps|)
            case Some(h) => exists i: nat :: FirstAt(done, ps, i, h)
  {
    hide AnyRoot, LongestScope;
    var after := done + [ps[0].component];
    HeadWalked(ps);
    match hit
    case None =>
      BeforeShifts(done, ps, |ps| - 1);
    case Some(h) =>
      var i: nat :| FirstAt(after, ps[1..], i, h);
      BeforeShifts(done, ps, i);
      WalkedShifts(done, ps, i);
      assert FirstAt(done, ps, i + 1, h);
  }

  lemma {:induction false} BeforeShifts(done: seq<Component>, ps: seq<Part>, i: nat)
    requires ps != [] && i < |ps| && !AnyRoot(done + [ps[0].component]) && NoneBefore(done + [ps[0].component], ps[1..], i)
    ensures NoneBefore(done, ps, i + 1)
  {
    hide AnyRoot;
    HeadWalked(ps);
    forall j | 0 <= j < i + 1 && j < |ps|
      ensures Rootless(done, ps, j)
    {
      if j > 0 {
        WalkedShifts(done, ps, j - 1);
        assert Rootless(done + [ps[0].component], ps[1..], j - 1);
      }
    }
  }

  lemma {:induction false} RootsDiffer(k: nat, l: nat)
    requires k < |ROOTS| && l < |ROOTS| && ROOTS[k].segments == ROOTS[l].segments
    ensures k == l
  {
    var a, b := ROOTS[k].segments, ROOTS[l].segments;
    assert |a| == |b| && a[0] == b[0] && a[|a| - 1] == b[|b| - 1];
  }

  lemma {:induction false} ScopeUnique(cs: seq<Component>, s: Scope, t: Scope)
    requires LongestScope(cs, s) && LongestScope(cs, t)
    ensures s == t
  {
    var k :| 0 <= k < |ROOTS| && EndsWindow(ROOTS[k], cs) && ROOTS[k].scope == s && NoneLonger(cs, |ROOTS[k].segments|);
    var l :| 0 <= l < |ROOTS| && EndsWindow(ROOTS[l], cs) && ROOTS[l].scope == t && NoneLonger(cs, |ROOTS[l].segments|);
    SameEnds(cs, ROOTS[k], ROOTS[l]);
    RootsDiffer(k, l);
  }

  lemma {:induction false} SameEnds(cs: seq<Component>, a: Root, b: Root)
    requires EndsWindow(a, cs) && EndsWindow(b, cs) && |a.segments| == |b.segments|
    ensures a.segments == b.segments
  {
    var tail := cs[|cs| - |a.segments|..];
    assert Spells(a, tail) && Spells(b, tail);
  }

  lemma {:induction false} LongestEnds(cs: seq<Component>, scope: Scope)
    requires LongestScope(cs, scope)
    ensures AnyRoot(cs)
  {
  }

  /** The first end is determined. */
  lemma {:induction false} FirstIsUnique(done: seq<Component>, ps: seq<Part>, i: nat, hit: RootHit, found: Option<RootHit>)
    requires FirstAt(done, ps, i, hit)
    requires match found
             case None => NoneBefore(done, ps, |ps|)
             case Some(h) => exists j: nat :: FirstAt(done, ps, j, h)
    ensures found == Some(hit)
  {
    hide AnyRoot, LongestScope;
    var cs := done + Walked(ps[..i + 1]);
    LongestEnds(cs, hit.scope);
    assert !Rootless(done, ps, i);
    if found.Some? {
      var j: nat :| FirstAt(done, ps, j, found.value);
      LongestEnds(done + Walked(ps[..j + 1]), found.value.scope);
      assert !Rootless(done, ps, j);
      assert i == j;
      ScopeUnique(cs, hit.scope, found.value.scope);
    }
  }

  /** A separator at `at`, and a component behind it. */
  predicate HasInstance(tok: string, at: nat) {
    at < |tok| && RootSeparator(tok[at]) &&
    var start := SkipSeparator(tok, at);
    start < |tok| && !RootSeparator(tok[start])
  }

  predicate InstanceText(s: string) {
    s != "" && !RootSeparator(s[0])
  }

  function EphemeralRoot(tok: string): (claim: Option<seq<Piece>>)
    ensures ClaimWf(InstanceText, tok, claim)
  {
    var hit :- FirstRoot(tok, 0, []);
    if hit.end >= |tok| || !RootSeparator(tok[hit.end]) then None
    else
      var start := SkipSeparator(tok, hit.end);
      if start >= |tok| || RootSeparator(tok[start]) then None
      else
        var end := if hit.scope.Instance? then RunEnd(tok, start, NotSeparator) else |tok|;
        assert end > start && tok[start..end][0] == tok[start];
        RangedWf(InstanceText, tok, start, end);
        Ranged(tok, start, end)
  }

  /** The rule claims a token if and only if a declared root ends in it, a separator follows the first such
      root, and a component follows that; the mask covers that component, or for a subtree all the rest. */
  lemma {:induction false} EphemeralRootExactly(tok: string)
    ensures EphemeralRoot(tok).None? <==> forall i: nat, hit :: FirstAt([], Parts(tok, 0), i, hit) ==> !HasInstance(tok, hit.end)
    ensures forall i: nat, hit :: FirstAt([], Parts(tok, 0), i, hit) && HasInstance(tok, hit.end) ==>
      var start := SkipSeparator(tok, hit.end);
      start < |tok| && EphemeralRoot(tok) ==
        Some(MaskRange(tok, start, if hit.scope.Instance? then RunEnd(tok, start, NotSeparator) else |tok|))
  {
    FirstRootExactly(tok, 0, []);
    hide FirstRoot, Parts, LongestScope, AnyRoot, PathFirstComponent, Ranged, ClaimWf, SourceOf, Masks, MasksOnly, RunEnd;
    var ps, found := Parts(tok, 0), FirstRoot(tok, 0, []);
    forall i: nat, hit | FirstAt([], ps, i, hit)
      ensures found == Some(hit)
    {
      FirstIsUnique([], ps, i, hit, found);
    }
  }

  // ----- the diagnostic composite -----

  predicate NotAlnum(c: char) {
    !Alnum(c)
  }

  /** The end of the alphanumeric core that starts at `lead`. */
  function CoreEnd(part: string, lead: nat, trail: nat): (e: nat)
    requires lead <= trail <= |part|
    ensures lead <= e <= trail && (e > lead ==> Alnum(part[e - 1]))
    decreases trail
  {
    if trail > lead && !Alnum(part[trail - 1]) then CoreEnd(part, lead, trail - 1) else trail
  }

  datatype Core = Core(lead: nat, trail: nat)

  function CoreOf(part: string): (c: Core)
    ensures c.lead <= c.trail <= |part|
    ensures c.lead < c.trail ==> Alnum(part[c.lead]) && Alnum(part[c.trail - 1])
  {
    var lead := RunEnd(part, 0, NotAlnum);
    CoreStays(part, lead);
    Core(lead, CoreEnd(part, lead, |part|))
  }

  lemma {:induction false} CoreStays(part: string, lead: nat)
    requires lead <= |part|
    ensures CoreEnd(part, lead, |part|) <= |part|
  {
  }

  predicate CoreText(s: string) {
    s != "" && Alnum(s[0]) && Alnum(s[|s| - 1])
  }

  /** What the walk carries from segment to segment. */
  datatype Walk = Walk(pieces: seq<Piece>, anchored: bool, prevCore: string, maskNext: bool, window: seq<Component>)

  function CorePieces(part: string, c: Core): (ps: seq<Piece>)
    requires c.lead < c.trail <= |part| && c == CoreOf(part)
    ensures SourceOf(ps) == part && MasksOnly(CoreText, ps)
  {
    CoreRange(part, c.lead, c.trail);
    MaskRange(part, c.lead, c.trail)
  }

  lemma {:induction false} CoreRange(part: string, i: nat, j: nat)
    requires i < j <= |part| && Alnum(part[i]) && Alnum(part[j - 1])
    ensures SourceOf(MaskRange(part, i, j)) == part && MasksOnly(CoreText, MaskRange(part, i, j))
  {
    hide Alnum;
    MaskRangeSource(part, i, j);
    var text := part[i..j];
    assert text[0] == part[i] && text[|text| - 1] == part[j - 1];
    hide SourceOf;
  }

  function Entered(w: Walk, text: string, before: char, atStart: bool): Walk {
    var window := Push(w.window, Component(text, before, atStart));
    w.(window := window, maskNext := RootEndingAt(window).Some?)
  }

  function Added(w: Walk, ps: seq<Piece>): Walk {
    w.(pieces := w.pieces + ps)
  }

  /** One part of a segment that holds backslashes: masked only directly under a root. */
  function BackslashPart(tok: string, w: Walk, part: string, abs: nat): Walk
    requires abs <= |tok|
  {
    var core := CoreOf(part);
    if core.lead == core.trail then Added(w, [Kept(part)])
    else
      var shown := if w.maskNext then Added(w, CorePieces(part, core)) else Added(w, [Kept(part)]);
      Entered(shown, part, SepBefore(tok, abs), PathFirstComponent(tok) == Some(abs))
  }

  /** `append_backslash_segment`, part by part. */
  function BackslashWalk(tok: string, w: Walk, seg: string, absStart: nat, partStart: nat): Walk
    requires partStart <= |seg| && absStart + |seg| <= |tok|
    decreases |seg| - partStart
  {
    match FirstOf(seg, '\\', partStart)
    case None => BackslashPart(tok, w, seg[partStart..], absStart + partStart)
    case Some(partEnd) =>
      var next := BackslashPart(tok, w, seg[partStart..partEnd], absStart + partStart);
      var sepEnd := SkipSeparator(seg, partEnd);
      BackslashWalk(tok, Added(next, [Kept(seg[partEnd..sepEnd])]), seg, absStart, sepEnd)
  }

  /** `flush_segment`. */
  function Flushed(tok: string, w: Walk, start: nat, end: nat): Walk
    requires start <= end <= |tok|
  {
    var seg := tok[start..end];
    var bounds := CoreOf(seg);
    var core := seg[bounds.lead..bounds.trail];
    var atStart := PathFirstComponent(tok) == Some(start);
    if core == "" then Added(w, [Kept(seg)]).(prevCore := "")
    else if w.maskNext then Entered(Added(w, CorePieces(seg, bounds)).(prevCore := core), seg, SepBefore(tok, start), atStart)
    else if Alpha(core[0]) then
      if '\\' in seg then BackslashWalk(tok, w.(anchored := true, prevCore := core), seg, start, 0)
      else Entered(Added(w, [Kept(seg)]).(anchored := true, prevCore := core), seg, SepBefore(tok, start), atStart)
    else if StatusKeyword(w.prevCore) && AllDigit(core) && |core| <= MAX_STATUS_DIGITS then
      Entered(Added(w, [Kept(seg)]).(prevCore := core), seg, SepBefore(tok, start), atStart)
    else Entered(Added(w, CorePieces(seg, bounds)).(prevCore := core), seg, SepBefore(tok, start), atStart)
  }

  predicate NotSegmentEnd(c: char) {
    c != ':' && c != '/'
  }

  function SegmentWalk(tok: string, w: Walk, start: nat): Walk
    requires start <= |tok|
    decreases |tok| - start
  {
    var end := RunEnd(tok, start, NotSegmentEnd);
    var flushed := Flushed(tok, w, start, end);
    if end == |tok| then flushed else SegmentWalk(tok, Added(flushed, [Kept([tok[end]])]), end + 1)
  }

  predicate HasColonDigit(tok: string) {
    exists i :: 0 <= i < |tok| - 1 && tok[i] == ':' && Digit(tok[i + 1])
  }

  const FRESH := Walk([], false, "", false, [])

  function DiagnosticComposite(tok: string): (claim: Option<seq<Piece>>)
    ensures ClaimWf(CoreText, tok, claim)
  {
    if !HasColonDigit(tok) then None
    else
      var w := SegmentWalk(tok, FRESH, 0);
      SegmentWalkSource(tok, FRESH, 0);
      assert tok[0..] == tok;
      if Masks(w.pieces) && w.anchored then Some(w.pieces) else None
  }

  lemma {:induction false} AddedSource(w: Walk, ps: seq<Piece>)
    requires MasksOnly(CoreText, w.pieces) && MasksOnly(CoreText, ps)
    ensures SourceOf(Added(w, ps).pieces) == SourceOf(w.pieces) + SourceOf(ps) && MasksOnly(CoreText, Added(w, ps).pieces)
  {
    SourceConcat(w.pieces, ps);
  }

  lemma {:induction false} KeptSource(w: Walk, text: string)
    requires MasksOnly(CoreText, w.pieces)
    ensures SourceOf(Added(w, [Kept(text)]).pieces) == SourceOf(w.pieces) + text && MasksOnly(CoreText, Added(w, [Kept(text)]).pieces)
  {
    AddedSource(w, [Kept(text)]);
    OnePiece(Kept(text));
  }

  lemma {:induction false} BackslashPartSource(tok: string, w: Walk, part: string, abs: nat)
    requires abs <= |tok| && MasksOnly(CoreText, w.pieces)
    ensures var r := BackslashPart(tok, w, part, abs);
      SourceOf(r.pieces) == SourceOf(w.pieces) + part && MasksOnly(CoreText, r.pieces)
  {
    hide MasksOnly, CoreText, RootEndingAt, Push, PathFirstComponent, SourceOf, CorePieces, Added, CoreOf;
    KeptSource(w, part);
    var core := CoreOf(part);
    if core.lead < core.trail {
      AddedSource(w, CorePieces(part, core));
    }
  }

  lemma {:induction false} BackslashWalkSource(tok: string, w: Walk, seg: string, absStart: nat, partStart: nat)
    requires partStart <= |seg| && absStart + |seg| <= |tok| && MasksOnly(CoreText, w.pieces)
    ensures var r := BackslashWalk(tok, w, seg, absStart, partStart);
      SourceOf(r.pieces) == SourceOf(w.pieces) + seg[partStart..] && MasksOnly(CoreText, r.pieces)
    decreases |seg| - partStart
  {
    hide MasksOnly, CoreText, SourceOf, Added, BackslashPart, RunEnd;
    match FirstOf(seg, '\\', partStart)
    case None =>
      BackslashPartSource(tok, w, seg[partStart..], absStart + partStart);
    case Some(partEnd) =>
      var next := BackslashPart(tok, w, seg[partStart..partEnd], absStart + partStart);
      var sepEnd := SkipSeparator(seg, partEnd);
      BackslashPartSource(tok, w, seg[partStart..partEnd], absStart + partStart);
      KeptSource(next, seg[partEnd..sepEnd]);
      BackslashWalkSource(tok, Added(next, [Kept(seg[partEnd..sepEnd])]), seg, absStart, sepEnd);
      ThreeParts(seg, partStart, partEnd, sepEnd, SourceOf(w.pieces));
  }

  lemma {:induction false} ThreeParts(s: string, i: nat, j: nat, k: nat, head: string)
    requires i <= j <= k <= |s|
    ensures ((head + s[i..j]) + s[j..k]) + s[k..] == head + s[i..]
  {
    assert s[i..] == s[i..j] + (s[j..k] + s[k..]);
  }

  lemma {:induction false} FlushedSource(tok: string, w: Walk, start: nat, end: nat)
    requires start <= end <= |tok| && MasksOnly(CoreText, w.pieces)
    ensures var r := Flushed(tok, w, start, end);
      SourceOf(r.pieces) == SourceOf(w.pieces) + tok[start..end] && MasksOnly(CoreText, r.pieces)
  {
    hide MasksOnly, CoreText, RootEndingAt, Push, PathFirstComponent, SourceOf, CorePieces, BackslashWalk;
    var seg := tok[start..end];
    var bounds := CoreOf(seg);
    KeptSource(w, seg);
    if bounds.lead < bounds.trail {
      AddedSource(w, CorePieces(seg, bounds));
      BackslashWalkSource(tok, w.(anchored := true, prevCore := seg[bounds.lead..bounds.trail]), seg, start, 0);
      assert seg[0..] == seg;
    }
  }

  lemma {:induction false} SegmentWalkSource(tok: string, w: Walk, start: nat)
    requires start <= |tok| && MasksOnly(CoreText, w.pieces)
    ensures var r := SegmentWalk(tok, w, start);
      SourceOf(r.pieces) == SourceOf(w.pieces) + tok[start..] && MasksOnly(CoreText, r.pieces)
    decreases |tok| - start
  {
    hide MasksOnly, CoreText, SourceOf, Flushed, Added, RunEnd, Every;
    var end := RunEnd(tok, start, NotSegmentEnd);
    var flushed := Flushed(tok, w, start, end);
    FlushedSource(tok, w, start, end);
    if end == |tok| {
      assert tok[start..] == tok[start..end];
    } else {
      KeptSource(flushed, [tok[end]]);
      SegmentWalkSource(tok, Added(flushed, [Kept([tok[end]])]), end + 1);
      assert tok[end..end + 1] == [tok[end]];
      ThreeParts(tok, start, end, end + 1, SourceOf(w.pieces));
    }
  }

  // ----- the catalogue -----

  /** A token with no separator byte and no currency marker never reaches the catalogue. */
  predicate Gated(tok: string) {
    MarkerPrefix(tok) == 0 && !HasSeparator(tok)
  }

  predicate AnyText(s: string) {
    s != ""
  }

  /** `try_composite`: the first rule in the catalogue's order that claims the token. */
  function TryComposite(tok: string): (claim: Option<seq<Piece>>)
    ensures ClaimWf(AnyText, tok, claim)
  {
    if Gated(tok) then None
    else if DiagnosticComposite(tok).Some? then AnyClaim(CoreText, tok, DiagnosticComposite(tok)); DiagnosticComposite(tok)
    else if EphemeralRoot(tok).Some? then AnyClaim(InstanceText, tok, EphemeralRoot(tok)); EphemeralRoot(tok)
    else if VersionedRef(tok).Some? then AnyClaim(NumberRun, tok, VersionedRef(tok)); VersionedRef(tok)
    else if BracketTimestamp(tok).Some? then AnyClaim(IsStamp, tok, BracketTimestamp(tok)); BracketTimestamp(tok)
    else if BracketIndex(tok).Some? then AnyClaim(AllDigit, tok, BracketIndex(tok)); BracketIndex(tok)
    else if HashCounter(tok).Some? then AnyClaim(AllDigit, tok, HashCounter(tok)); HashCounter(tok)
    else if MarkerNumber(tok).Some? then AnyClaim(NumberRun, tok, MarkerNumber(tok)); MarkerNumber(tok)
    else if EmbeddedIdentity(tok).Some? then AnyClaim(Identity, tok, EmbeddedIdentity(tok)); EmbeddedIdentity(tok)
    else if SanitizerPid(tok).Some? then AnyClaim(AllDigit, tok, SanitizerPid(tok)); SanitizerPid(tok)
    else AnyClaim(DigitLeading, tok, KvValue(tok)); KvValue(tok)
  }

  lemma {:induction false} AnyClaim(class_: string -> bool, tok: string, claim: Option<seq<Piece>>)
    requires ClaimWf(class_, tok, claim)
    ensures ClaimWf(AnyText, tok, claim)
  {
    hide SourceOf;
  }

  // ----- the path rules as loops over the token -----

  /** `first_root`. */
  method FindRoot(tok: string) returns (hit: Option<RootHit>)
    ensures hit == FirstRoot(tok, 0, [])
  {
    hide RootEndingAt, PathFirstComponent, Push, Every;
    var firstComp := PathFirstComponent(tok);
    var window: seq<Component> := [];
    var compStart, pos := 0, 0;
    while pos <= |tok|
      invariant 0 <= compStart <= pos <= |tok|
      invariant FirstRoot(tok, compStart, window) == FirstRoot(tok, 0, [])
      invariant RunEnd(tok, compStart, NotSeparator) == RunEnd(tok, pos, NotSeparator)
      decreases |tok| - pos
    {
      if pos < |tok| && !RootSeparator(tok[pos]) {
        pos := pos + 1;
        continue;
      }
      assert RunEnd(tok, pos, NotSeparator) == pos;
      window := Push(window, Component(tok[compStart..pos], SepBefore(tok, compStart), firstComp == Some(compStart)));
      var scope := RootEndingAt(window);
      if scope.Some? {
        return Some(RootHit(pos, scope.value));
      }
      if pos == |tok| {
        return None;
      }
      pos := SkipSeparator(tok, pos);
      compStart := pos;
    }
    return None;
  }

  /** `normalize_ephemeral_root`. */
  method NormalizeEphemeralRoot(tok: string) returns (claimed: bool, out: string)
    ensures Answers(EphemeralRoot(tok), claimed, out)
  {
    hide FirstRoot, SourceOf, Masks, MasksOnly, ClaimWf;
    claimed, out := false, "";
    var hit := FindRoot(tok);
    if hit.None? || hit.value.end >= |tok| || !RootSeparator(tok[hit.value.end]) {
      return;
    }
    var start := SkipSeparator(tok, hit.value.end);
    if start >= |tok| || RootSeparator(tok[start]) {
      return;
    }
    claimed, out := true, tok[..start] + WILDCARD;
    var end := |tok|;
    if hit.value.scope.Instance? {
      end := SkipRun(tok, start, NotSeparator);
      out := out + tok[end..];
    }
    assert end > start;
    RangeAnswers(tok, start, end);
  }

  lemma {:induction false} Appended(out: string, a: string, b: string, c: string)
    ensures ((out + a) + b) + c == out + (a + b + c)
  {
  }

  /** The walk of `normalize_diagnostic_composite`: what its local functions share and update. */
  class DiagnosticScan {
    const tok: string
    const firstComp: Option<nat>
    var out: string
    var masked: bool
    var anchored: bool
    var prevCore: string
    var maskNext: bool
    var window: seq<Component>

    /** The scan is where the specification's walk is. */
    ghost predicate Shows(w: Walk)
      reads this
    {
      && firstComp == PathFirstComponent(tok)
      && out == Rendered(w.pieces) && masked == Masks(w.pieces)
      && anchored == w.anchored && prevCore == w.prevCore && maskNext == w.maskNext && window == w.window
    }

    constructor (tok: string)
      ensures this.tok == tok && Shows(FRESH)
    {
      this.tok := tok;
      firstComp := PathFirstComponent(tok);
      out, masked, anchored, prevCore, maskNext, window := "", false, false, "", false, [];
    }

    method AppendText(text: string, ghost w: Walk)
      requires Shows(w)
      modifies this`out
      ensures Shows(Added(w, [Kept(text)]))
    {
      hide PathFirstComponent;
      out := out + text;
      OnePiece(Kept(text));
      RenderedConcat(w.pieces, [Kept(text)]);
      MasksConcat(w.pieces, [Kept(text)]);
      assert !Masks([Kept(text)]);
    }

    method AppendMasked(part: string, core: Core, ghost w: Walk)
      requires Shows(w) && core.lead < core.trail <= |part| && core == CoreOf(part)
      modifies this`out, this`masked
      ensures Shows(Added(w, CorePieces(part, core)))
    {
      hide PathFirstComponent, CoreOf, Rendered, MaskRange, SourceOf, MasksOnly, Masks;
      out := out + part[..core.lead];
      out := out + WILDCARD;
      out := out + part[core.trail..];
      masked := true;
      MaskRangeSource(part, core.lead, core.trail);
      RenderedConcat(w.pieces, CorePieces(part, core));
      MasksConcat(w.pieces, CorePieces(part, core));
      Appended(Rendered(w.pieces), part[..core.lead], WILDCARD, part[core.trail..]);
    }

    /** `push_component`, and whether a root ends there. */
    method EnterComponent(text: string, at: nat, ghost w: Walk)
      requires Shows(w) && at <= |tok|
      modifies this`window, this`maskNext
      ensures Shows(Entered(w, text, SepBefore(tok, at), PathFirstComponent(tok) == Some(at)))
    {
      hide PathFirstComponent;
      window := Push(window, Component(text, SepBefore(tok, at), firstComp == Some(at)));
      maskNext := RootEndingAt(window).Some?;
    }

    method AppendPart(part: string, abs: nat, ghost w: Walk)
      requires Shows(w) && abs <= |tok|
      modifies this`out, this`masked, this`window, this`maskNext
      ensures Shows(BackslashPart(tok, w, part, abs))
    {
      hide PathFirstComponent, RootEndingAt, Push, CorePieces, CoreOf;
      var core := CoreOf(part);
      if core.lead == core.trail || !maskNext {
        AppendText(part, w);
        if core.lead != core.trail {
          EnterComponent(part, abs, Added(w, [Kept(part)]));
        }
      } else {
        AppendMasked(part, core, w);
        EnterComponent(part, abs, Added(w, CorePieces(part, core)));
      }
    }

    /** `append_backslash_segment`. */
    method AppendBackslashSegment(seg: string, absStart: nat, ghost w: Walk)
      requires Shows(w) && absStart + |seg| <= |tok|
      modifies this`out, this`masked, this`window, this`maskNext
      ensures Shows(BackslashWalk(tok, w, seg, absStart, 0))
    {
      hide PathFirstComponent, RootEndingAt, BackslashPart, Added, RunEnd;
      var partStart := 0;
      ghost var at := w;
      while true
        invariant 0 <= partStart <= |seg| && Shows(at)
        invariant BackslashWalk(tok, w, seg, absStart, 0) == BackslashWalk(tok, at, seg, absStart, partStart)
        decreases |seg| - partStart
      {
        var found := FirstOf(seg, '\\', partStart);
        var partEnd := if found.None? then |seg| else found.value;
        var part := seg[partStart..partEnd];
        AppendPart(part, absStart + partStart, at);
        ghost var next := BackslashPart(tok, at, part, absStart + partStart);
        if found.None? {
          assert seg[partStart..] == part;
          return;
        }
        var sepEnd := SkipSeparator(seg, partEnd);
        AppendText(seg[partEnd..sepEnd], next);
        at := Added(next, [Kept(seg[partEnd..sepEnd])]);
        partStart := sepEnd;
      }
    }

    /** `flush_segment`. */
    method FlushSegment(start: nat, end: nat, ghost w: Walk)
      requires Shows(w) && start <= end <= |tok|
      modifies this
      ensures Shows(Flushed(tok, w, start, end))
    {
      hide PathFirstComponent, RootEndingAt, Push, CorePieces, CoreOf, BackslashWalk, SourceOf, MasksOnly, StatusKeyword, AllDigit;
      var seg := tok[start..end];
      var bounds := CoreOf(seg);
      var core := seg[bounds.lead..bounds.trail];
      if core == "" {
        AppendText(seg, w);
        prevCore := "";
      } else if maskNext {
        AppendMasked(seg, bounds, w);
        prevCore := core;
        EnterComponent(seg, start, Added(w, CorePieces(seg, bounds)).(prevCore := core));
      } else if Alpha(core[0]) {
        anchored := true;
        prevCore := core;
        if '\\' in seg {
          AppendBackslashSegment(seg, start, w.(anchored := true, prevCore := core));
        } else {
          AppendText(seg, w.(anchored := true, prevCore := core));
          EnterComponent(seg, start, Added(w, [Kept(seg)]).(anchored := true, prevCore := core));
        }
      } else if StatusKeyword(prevCore) && AllDigit(core) && |core| <= MAX_STATUS_DIGITS {
        AppendText(seg, w);
        prevCore := core;
        EnterComponent(seg, start, Added(w, [Kept(seg)]).(prevCore := core));
      } else {
        AppendMasked(seg, bounds, w);
        prevCore := core;
        EnterComponent(seg, start, Added(w, CorePieces(seg, bounds)).(prevCore := core));
      }
    }
  }

  /** The trigger of the diagnostic composite. */
  method FindColonDigit(tok: string) returns (found: bool)
    ensures found <==> HasColonDigit(tok)
  {
    var pos := 0;
    while pos + 1 < |tok|
      invariant 0 <= pos && forall i :: 0 <= i < pos && i < |tok| - 1 ==> !(tok[i] == ':' && Digit(tok[i + 1]))
    {
      if tok[pos] == ':' && Digit(tok[pos + 1]) {
        return true;
      }
      pos := pos + 1;
    }
    return false;
  }

  /** The segment that starts at `start` reaches at least to `pos`. */
  ghost predicate InSegment(tok: string, start: nat, pos: nat) {
    start <= pos <= |tok| && RunEnd(tok, start, NotSegmentEnd) == RunEnd(tok, pos, NotSegmentEnd)
  }

  /** One turn of the position loop: a separator ends the segment, any other byte continues it. */
  lemma {:induction false} WalkTurn(tok: string, w: Walk, start: nat, pos: nat)
    requires InSegment(tok, start, pos) && pos < |tok|
    ensures if tok[pos] == ':' || tok[pos] == '/' then
        InSegment(tok, pos + 1, pos + 1) &&
        SegmentWalk(tok, w, start) == SegmentWalk(tok, Added(Flushed(tok, w, start, pos), [Kept([tok[pos]])]), pos + 1)
      else InSegment(tok, start, pos + 1)
  {
    hide Flushed, Added, Every;
  }

  lemma {:induction false} WalkEnd(tok: string, w: Walk, start: nat)
    requires InSegment(tok, start, |tok|)
    ensures SegmentWalk(tok, w, start) == Flushed(tok, w, start, |tok|)
  {
    hide Flushed, Added, Every;
  }

  lemma {:induction false} CompositeIs(tok: string)
    ensures DiagnosticComposite(tok) ==
      var w := SegmentWalk(tok, FRESH, 0);
      if HasColonDigit(tok) && Masks(w.pieces) && w.anchored then Some(w.pieces) else None
  {
    hide SegmentWalk, HasColonDigit, Masks;
  }

  /** A name that a location can open with: letter-led, ending in a letter or digit, in one segment. */
  predicate PlainName(file: string) {
    file != "" && Alpha(file[0]) && Alnum(file[|file| - 1]) && Every(NotSegmentEnd, file) && '\\' !in file
  }

  lemma {:induction false} CoreIsAll(part: string)
    requires part != "" && Alnum(part[0]) && Alnum(part[|part| - 1])
    ensures CoreOf(part) == Core(0, |part|) && part[0..|part|] == part
  {
    assert RunEnd(part, 0, NotAlnum) == 0;
  }

  /** A component that no separator precedes ends no root. */
  lemma {:induction false} NoRootWithoutSeparator(w: seq<Component>)
    requires w != [] && !RootSeparator(w[|w| - 1].before)
    ensures RootEndingAt(w) == None
  {
    forall k | 0 <= k < |ROOTS|
      ensures !EndsWindow(ROOTS[k], w)
    {
    }
    LongestRootWins(w, 0, None);
  }

  lemma {:induction false} LocationParts(file: string, line: string)
    requires PlainName(file) && AllDigit(line)
    ensures var tok := file + ":" + line; var n := |file|;
      && RunEnd(tok, 0, NotSegmentEnd) == n && RunEnd(tok, n + 1, NotSegmentEnd) == |tok|
      && 0 < n < |tok| - 1 && tok[0..n] == file && tok[n] == ':' && tok[n + 1..|tok|] == line && HasColonDigit(tok)
  {
    var tok, n := file + ":" + line, |file|;
    assert tok[0..n] == file && tok[n + 1..|tok|] == line;
    hide AllDigits, RunEnd;
    RunBetween(tok, 0, n, NotSegmentEnd);
    forall i | 0 <= i < |line|
      ensures NotSegmentEnd(line[i])
    {
      assert Digit(line[i]) by { AllDigitAt(line, i); }
    }
    RunBetween(tok, n + 1, |tok|, NotSegmentEnd);
    AllDigitAt(line, 0);
    assert tok[n + 1] == line[0];
  }

  lemma {:induction false} AllDigitAt(s: string, i: nat)
    requires AllDigits(s) && i < |s|
    ensures Digit(s[i])
  {
  }

  lemma {:induction false} TwoSegments(tok: string, n: nat)
    requires n < |tok| && RunEnd(tok, 0, NotSegmentEnd) == n && RunEnd(tok, n + 1, NotSegmentEnd) == |tok|
    ensures SegmentWalk(tok, FRESH, 0) == Flushed(tok, Added(Flushed(tok, FRESH, 0, n), [Kept([tok[n]])]), n + 1, |tok|)
  {
    hide RunEnd, Flushed, Added;
    var next := Added(Flushed(tok, FRESH, 0, n), [Kept([tok[n]])]);
    assert SegmentWalk(tok, next, n + 1) == Flushed(tok, next, n + 1, |tok|);
  }

  lemma {:induction false} NameFlushed(tok: string, n: nat)
    requires 0 < n <= |tok| && PlainName(tok[0..n])
    ensures var w := Flushed(tok, FRESH, 0, n);
      w == Walk([Kept(tok[0..n])], true, tok[0..n], false, w.window)
  {
    var file := tok[0..n];
    CoreIsAll(file);
    var window := Push([], Component(file, SepBefore(tok, 0), PathFirstComponent(tok) == Some(0)));
    NoRootWithoutSeparator(window);
    hide CoreOf, PathFirstComponent, RootEndingAt, StatusKeyword, AllDigit, SourceOf, MasksOnly, CorePieces, BackslashWalk;
    assert [] + [Kept(file)] == [Kept(file)];
  }

  lemma {:induction false} NumberFlushed(tok: string, w: Walk, start: nat)
    requires start < |tok| && AllDigit(tok[start..|tok|]) && !w.maskNext
    ensures var line := tok[start..|tok|];
      Flushed(tok, w, start, |tok|).anchored == w.anchored &&
      Flushed(tok, w, start, |tok|).pieces == w.pieces +
        if StatusKeyword(w.prevCore) && |line| <= MAX_STATUS_DIGITS then [Kept(line)] else MaskRange(line, 0, |line|)
  {
    var line := tok[start..|tok|];
    AllDigitAt(line, 0);
    AllDigitAt(line, |line| - 1);
    CoreIsAll(line);
    hide CoreOf, PathFirstComponent, RootEndingAt, StatusKeyword, AllDigit, SourceOf, MasksOnly, BackslashWalk, MaskRange;
  }

  /** The walk over `name:digits`, flushed twice. */
  lemma {:induction false} LocationWalk(file: string, line: string)
    requires PlainName(file) && AllDigit(line)
    ensures var w := SegmentWalk(file + ":" + line, FRESH, 0);
      && w.anchored
      && w.pieces == [Kept(file), Kept(":")] +
           if StatusKeyword(file) && |line| <= MAX_STATUS_DIGITS then [Kept(line)] else MaskRange(line, 0, |line|)
  {
    hide PlainName, RunEnd, StatusKeyword, AllDigit, MaskRange, HasColonDigit, SegmentWalk, Flushed;
    var tok, n := file + ":" + line, |file|;
    LocationParts(file, line);
    TwoSegments(tok, n);
    NameFlushed(tok, n);
    var next := Added(Flushed(tok, FRESH, 0, n), [Kept([tok[n]])]);
    assert next.pieces == [Kept(file), Kept(":")];
    assert AllDigit(tok[n + 1..|tok|]);
    NumberFlushed(tok, next, n + 1);
  }

  lemma {:induction false} WholeMasked(line: string)
    requires line != ""
    ensures Masks(MaskRange(line, 0, |line|)) && Rendered(MaskRange(line, 0, |line|)) == WILDCARD
  {
    MaskRangeSource(line, 0, |line|);
    hide Rendered, MaskRange, SourceOf;
    assert line[..0] == "" && line[|line|..] == "";
  }

  lemma {:induction false} KeptTwice(a: string, b: string)
    ensures Rendered([Kept(a), Kept(b)]) == a + b && !Masks([Kept(a), Kept(b)])
  {
    OnePiece(Kept(a));
    OnePiece(Kept(b));
    RenderedConcat([Kept(a)], [Kept(b)]);
    hide Rendered;
    assert [Kept(a), Kept(b)] == [Kept(a)] + [Kept(b)];
  }

  lemma {:induction false} LocationRendered(file: string, line: string)
    requires line != ""
    ensures var colon := [Kept(file), Kept(":")];
      && !Masks(colon + [Kept(line)]) && Masks(colon + MaskRange(line, 0, |line|))
      && Rendered(colon + MaskRange(line, 0, |line|)) == file + ":" + WILDCARD
  {
    var colon, masked := [Kept(file), Kept(":")], MaskRange(line, 0, |line|);
    KeptTwice(file, ":");
    WholeMasked(line);
    MasksConcat(colon, masked);
    MasksConcat(colon, [Kept(line)]);
    RenderedConcat(colon, masked);
    assert !Masks([Kept(line)]);
    hide Rendered, MaskRange, SourceOf, Masks;
  }

  /** A source location keeps its name and has its line number masked, unless the name is a status keyword and
      the number short: then nothing is masked, and the rule declines. */
  lemma {:induction false} LocationExactly(file: string, line: string)
    requires PlainName(file) && AllDigit(line)
    ensures var claim := DiagnosticComposite(file + ":" + line);
      if StatusKeyword(file) && |line| <= MAX_STATUS_DIGITS then claim == None
      else claim.Some? && Rendered(claim.value) == file + ":" + WILDCARD
  {
    LocationParts(file, line);
    LocationWalk(file, line);
    CompositeIs(file + ":" + line);
    LocationRendered(file, line);
    hide DiagnosticComposite, SegmentWalk, StatusKeyword, AllDigit, HasColonDigit, PlainName, Masks, Rendered, MaskRange, RunEnd, SourceOf;
  }

  // ----- which segments are masked -----

  /** What becomes of one segment when no root stands before it: a letter-led core keeps it, and so does a
      short number behind a status keyword; any other core is masked. */
  function Decided(seg: string, prev: string): (ps: seq<Piece>)
    ensures SourceOf(ps) == seg
  {
    var c := CoreOf(seg);
    OnePiece(Kept(seg));
    if MasksCore(seg, prev) then CorePieces(seg, c) else [Kept(seg)]
  }

  function CoreOfSegment(seg: string): string {
    seg[CoreOf(seg).lead..CoreOf(seg).trail]
  }

  predicate MasksCore(seg: string, prev: string) {
    var core := CoreOfSegment(seg);
    core != "" && Digit(core[0]) && !(StatusKeyword(prev) && AllDigit(core) && |core| <= MAX_STATUS_DIGITS)
  }

  predicate LetterLed(seg: string) {
    var core := CoreOfSegment(seg);
    core != "" && Alpha(core[0])
  }

  /** The segments from `start` on, each seeing only the core before it. */
  function SegmentsShown(tok: string, start: nat, prev: string): seq<Piece>
    requires start <= |tok|
    decreases |tok| - start
  {
    var end := RunEnd(tok, start, NotSegmentEnd);
    var seg := tok[start..end];
    Decided(seg, prev) +
    if end == |tok| then [] else [Kept([tok[end]])] + SegmentsShown(tok, end + 1, CoreOfSegment(seg))
  }

  /** A segment from `start` on is letter-led. */
  predicate HasAnchor(tok: string, start: nat)
    requires start <= |tok|
    decreases |tok| - start
  {
    var end := RunEnd(tok, start, NotSegmentEnd);
    LetterLed(tok[start..end]) || (end < |tok| && HasAnchor(tok, end + 1))
  }

  /** No segment from `start` on is the last component of a declared root. */
  predicate RootFree(tok: string, start: nat)
    requires start <= |tok|
    decreases |tok| - start
  {
    var end := RunEnd(tok, start, NotSegmentEnd);
    NoRootName(tok[start..end]) && (end == |tok| || RootFree(tok, end + 1))
  }

  predicate NoRootName(text: string) {
    forall k :: 0 <= k < |ROOTS| ==> ROOTS[k].segments == [] || ROOTS[k].segments[|ROOTS[k].segments| - 1] != text
  }

  lemma {:induction false} NoNameNoRoot(w: seq<Component>)
    requires w != [] && NoRootName(w[|w| - 1].text)
    ensures RootEndingAt(w) == None
  {
    forall k | 0 <= k < |ROOTS|
      ensures !EndsWindow(ROOTS[k], w)
    {
      LastSpelled(ROOTS[k], w);
    }
    LongestRootWins(w, 0, None);
  }

  lemma {:induction false} LastSpelled(root: Root, w: seq<Component>)
    requires w != [] && (root.segments == [] || root.segments[|root.segments| - 1] != w[|w| - 1].text)
    ensures !EndsWindow(root, w)
  {
    if 0 < |root.segments| <= |w| {
      var tail := w[|w| - |root.segments|..];
      assert tail[|tail| - 1] == w[|w| - 1];
    }
  }

  /** One flush, when no root is pending and none ends here. */
  lemma {:induction false} FlushedPlainly(tok: string, w: Walk, start: nat, end: nat)
    requires start <= end <= |tok| && !w.maskNext && '\\' !in tok[start..end] && NoRootName(tok[start..end])
    ensures var r, seg := Flushed(tok, w, start, end), tok[start..end];
      && r.pieces == w.pieces + Decided(seg, w.prevCore) && r.anchored == (w.anchored || LetterLed(seg))
      && r.prevCore == CoreOfSegment(seg) && !r.maskNext
  {
    var seg := tok[start..end];
    var window := Push(w.window, Component(seg, SepBefore(tok, start), PathFirstComponent(tok) == Some(start)));
    NoNameNoRoot(window);
    CoreHead(seg);
    hide CoreOf, PathFirstComponent, RootEndingAt, StatusKeyword, AllDigit, SourceOf, MasksOnly, BackslashWalk, CorePieces, NoRootName, Push;
  }

  lemma {:induction false} CoreHead(seg: string)
    ensures CoreOfSegment(seg) != "" <==> CoreOf(seg).lead < CoreOf(seg).trail
    ensures CoreOfSegment(seg) != "" ==> (Alpha(CoreOfSegment(seg)[0]) <==> !Digit(CoreOfSegment(seg)[0]))
  {
    hide RunEnd, CoreEnd;
  }

  lemma {:induction false} WalkPlainly(tok: string, w: Walk, start: nat)
    requires start <= |tok| && !w.maskNext && '\\' !in tok && RootFree(tok, start)
    ensures var r := SegmentWalk(tok, w, start);
      && r.pieces == w.pieces + SegmentsShown(tok, start, w.prevCore) && r.anchored == (w.anchored || HasAnchor(tok, start))
    decreases |tok| - start
  {
    hide Flushed, NoRootName, Decided, LetterLed, CoreOfSegment, RunEnd, Every;
    var end := RunEnd(tok, start, NotSegmentEnd);
    FlushedPlainly(tok, w, start, end);
    var flushed := Flushed(tok, w, start, end);
    if end < |tok| {
      var next := Added(flushed, [Kept([tok[end]])]);
      WalkPlainly(tok, next, end + 1);
      ThreeLists(w.pieces, Decided(tok[start..end], w.prevCore), [Kept([tok[end]])], SegmentsShown(tok, end + 1, CoreOfSegment(tok[start..end])));
    } else {
      TwoLists(w.pieces, Decided(tok[start..end], w.prevCore));
    }
  }

  lemma {:induction false} ThreeLists(a: seq<Piece>, b: seq<Piece>, c: seq<Piece>, d: seq<Piece>)
    ensures ((a + b) + c) + d == a + (b + (c + d))
  {
  }

  lemma {:induction false} TwoLists(a: seq<Piece>, b: seq<Piece>)
    ensures a + b == a + (b + [])
  {
    assert b + [] == b;
  }

  /** For every token without backslashes and without a segment that ends a declared root: the rule claims it
      if and only if a colon stands before a digit, some segment is letter-led and some segment's core is
      masked; and the masked cores are exactly those led by a digit that are no short number behind a status
      keyword. */
  lemma {:induction false} SegmentsExactly(tok: string)
    requires '\\' !in tok && RootFree(tok, 0)
    ensures var ps := SegmentsShown(tok, 0, "");
      DiagnosticComposite(tok) == if HasColonDigit(tok) && HasAnchor(tok, 0) && Masks(ps) then Some(ps) else None
  {
    hide SegmentWalk, HasColonDigit, HasAnchor, SegmentsShown, Masks, RootFree, DiagnosticComposite;
    WalkPlainly(tok, FRESH, 0);
    CompositeIs(tok);
    assert [] + SegmentsShown(tok, 0, "") == SegmentsShown(tok, 0, "");
  }

  /** `normalize_diagnostic_composite`. */
  method NormalizeDiagnosticComposite(tok: string) returns (claimed: bool, out: string)
    ensures Answers(DiagnosticComposite(tok), claimed, out)
  {
    hide DiagnosticComposite, Flushed, HasColonDigit, PathFirstComponent, SegmentWalk, InSegment, Added, Rendered, Masks;
    CompositeIs(tok);
    claimed, out := false, "";
    var triggered := FindColonDigit(tok);
    if !triggered {
      return;
    }
    var scan := new DiagnosticScan(tok);
    ghost var w := FRESH;
    var segStart, pos := 0, 0;
    StartSegment(tok);
    while pos < |tok|
      invariant 0 <= segStart <= pos <= |tok| && scan.tok == tok && scan.Shows(w)
      invariant SegmentWalk(tok, w, segStart) == SegmentWalk(tok, FRESH, 0)
      invariant InSegment(tok, segStart, pos)
    {
      WalkTurn(tok, w, segStart, pos);
      if tok[pos] == ':' || tok[pos] == '/' {
        scan.FlushSegment(segStart, pos, w);
        ghost var flushed := Flushed(tok, w, segStart, pos);
        scan.AppendText([tok[pos]], flushed);
        w := Added(flushed, [Kept([tok[pos]])]);
        segStart := pos + 1;
      }
      pos := pos + 1;
    }
    WalkEnd(tok, w, segStart);
    scan.FlushSegment(segStart, |tok|, w);
    claimed, out := scan.masked && scan.anchored, scan.out;
  }

  lemma {:induction false} StartSegment(tok: string)
    ensures InSegment(tok, 0, 0)
  {
  }

  /** `try_composite`: the rules in the catalogue's order. */
  method ComposeForm(tok: string) returns (claimed: bool, out: string)
    ensures Answers(TryComposite(tok), claimed, out)
  {
    hide DiagnosticComposite, EphemeralRoot, VersionedRef, BracketTimestamp, BracketIndex, HashCounter, MarkerNumber,
      EmbeddedIdentity, SanitizerPid, KvValue, Gated, ClaimWf, Rendered;
    claimed, out := false, "";
    if Gated(tok) {
      return;
    }
    claimed, out := NormalizeDiagnosticComposite(tok);
    if claimed { return; }
    claimed, out := NormalizeEphemeralRoot(tok);
    if claimed { return; }
    claimed, out := NormalizeVersionedRef(tok);
    if claimed { return; }
    claimed, out := NormalizeBracketTimestamp(tok);
    if claimed { return; }
    claimed, out := NormalizeBracketIndex(tok);
    if claimed { return; }
    claimed, out := NormalizeHashCounter(tok);
    if claimed { return; }
    claimed, out := NormalizeMarkerNumber(tok);
    if claimed { return; }
    claimed, out := NormalizeEmbeddedIdentity(tok);
    if claimed { return; }
    claimed, out := NormalizeSanitizerPid(tok);
    if claimed { return; }
    claimed, out := NormalizeKvValue(tok);
  }
}
