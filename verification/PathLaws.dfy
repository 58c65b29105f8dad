/**
 The path rules of the masker told from a token's components: where a path opens, which declared roots end
 where, and what is masked behind the first of them.
 */
module PathLaws {
  import opened Wrappers
  import opened Text
  import opened MaskPieces
  import opened MaskRules
  import opened MaskPaths

  // ----- where the path opens -----

  predicate OpenerByte(c: char) {
    c in "[({<\"'"
  }

  predicate KeyByte(c: char) {
    Letter(c) || Numeral(c) || c in "_.-"
  }

  predicate IsBackslash(c: char) {
    c == '\\'
  }

  /** All the bytes of a class from `i` on. */
  predicate WholeRun(tok: string, i: nat, j: nat, class_: char -> bool) {
    i <= j <= |tok| && (forall k :: i <= k < j ==> class_(tok[k])) && (j < |tok| ==> !class_(tok[j]))
  }

  lemma {:induction false} WholeRunEnd(tok: string, i: nat, j: nat, class_: char -> bool, ok: char -> bool)
    requires WholeRun(tok, i, j, class_) && forall c :: class_(c) == ok(c)
    ensures RunEnd(tok, i, ok) == j
  {
    hide RunEnd;
    var run := tok[i..j];
    assert forall k :: 0 <= k < |run| ==> run[k] == tok[i + k];
    RunBetween(tok, i, j, ok);
  }

  lemma {:induction false} OpenerIs()
    ensures forall c :: OpenerByte(c) == WrapperOpen(c)
    ensures forall c :: KeyByte(c) == LeadKeyByte(c)
    ensures forall c :: IsBackslash(c) == Backslash(c)
  {
  }

  /** A path opens with a slash or backslashes at the start of the token or right behind its lead: opening bytes,
      then a key, its equals sign and more opening bytes or nothing, then `file://` or nothing. `a`, `e` and `b`
      are where the first opening bytes, the key's bytes and the last opening bytes end. */
  lemma {:induction false} PathOpens(tok: string, a: nat, e: nat, b: nat, open: nat)
    requires WholeRun(tok, 0, a, OpenerByte) && WholeRun(tok, a, e, KeyByte)
    requires if e > a && e < |tok| && tok[e] == '=' then WholeRun(tok, e + 1, b, OpenerByte) else b == a
    requires open == if b + 7 <= |tok| && tok[b..b + 7] == "file://" then b + 7 else b
    ensures (open >= |tok| || (tok[open] != '/' && tok[open] != '\\')) ==> PathFirstComponent(tok) == None
    ensures open < |tok| && tok[open] == '/' ==> PathFirstComponent(tok) == Some(open + 1)
    ensures forall c: nat :: open < |tok| && tok[open] == '\\' && WholeRun(tok, open, c, IsBackslash) ==>
      PathFirstComponent(tok) == Some(c)
  {
    hide RunEnd, WholeRun, OpenerByte, KeyByte, WrapperOpen, LeadKeyByte, Backslash, IsBackslash;
    OpenerIs();
    WholeRunEnd(tok, 0, a, OpenerByte, WrapperOpen);
    WholeRunEnd(tok, a, e, KeyByte, LeadKeyByte);
    RunBounds(tok, 0, a, OpenerByte);
    RunBounds(tok, a, e, KeyByte);
    if e > a && e < |tok| && tok[e] == '=' {
      WholeRunEnd(tok, e + 1, b, OpenerByte, WrapperOpen);
      RunBounds(tok, e + 1, b, OpenerByte);
    }
    SchemeIs(tok, b);
    forall c: nat | open < |tok| && tok[open] == '\\' && WholeRun(tok, open, c, IsBackslash)
      ensures RunEnd(tok, open, Backslash) == c
    {
      WholeRunEnd(tok, open, c, IsBackslash, Backslash);
    }
  }

  lemma {:induction false} RunBounds(tok: string, i: nat, j: nat, class_: char -> bool)
    requires WholeRun(tok, i, j, class_)
    ensures i <= j <= |tok|
  {
  }

  lemma {:induction false} SchemeIs(tok: string, b: nat)
    requires b <= |tok|
    ensures FILE_URL <= tok[b..] <==> b + 7 <= |tok| && tok[b..b + 7] == "file://"
    ensures |FILE_URL| == 7
  {
    if b + 7 <= |tok| {
      assert tok[b..][..7] == tok[b..b + 7];
    }
  }

  // ----- components as written -----

  /** Components with a separator between each two: a slash or a run of backslashes. */
  function Printed(cs: seq<string>, seps: seq<string>): string
    requires |cs| == |seps| + 1
    decreases |cs|
  {
    if seps == [] then cs[0] else cs[0] + (seps[0] + Printed(cs[1..], seps[1..]))
  }

  predicate Plain(c: string) {
    forall i :: 0 <= i < |c| ==> c[i] != '/' && c[i] != '\\'
  }

  predicate Separator(sep: string) {
    sep == "/" || (sep != "" && forall i :: 0 <= i < |sep| ==> sep[i] == '\\')
  }

  /** No backslashes run on over an empty component. */
  predicate WellPrinted(cs: seq<string>, seps: seq<string>)
    requires |cs| == |seps| + 1
  {
    && (forall i :: 0 <= i < |cs| ==> Plain(cs[i])) && (forall i :: 0 <= i < |seps| ==> Separator(seps[i]))
    && forall i :: 0 <= i < |seps| - 1 ==> seps[i] == "/" || cs[i + 1] != "" || seps[i + 1] == "/"
  }

  /** Where component `i` begins. */
  function Begin(cs: seq<string>, seps: seq<string>, i: nat): nat
    requires |cs| == |seps| + 1 && i < |cs|
    decreases i
  {
    if i == 0 then 0 else |cs[0]| + |seps[0]| + Begin(cs[1..], seps[1..], i - 1)
  }

  lemma {:induction false} PrintedHead(tok: string, start: nat, cs: seq<string>, seps: seq<string>)
    requires |cs| == |seps| + 1 && WellPrinted(cs, seps) && start <= |tok| && tok[start..] == Printed(cs, seps)
    ensures var end := start + |cs[0]|;
      && end <= |tok| && tok[start..end] == cs[0] && RunEnd(tok, start, NotSeparator) == end
      && (seps == [] ==> end == |tok|)
      && (seps != [] ==>
          && end < |tok| && RootSeparator(tok[end]) && SkipSeparator(tok, end) == end + |seps[0]| <= |tok|
          && tok[end + |seps[0]|..] == Printed(cs[1..], seps[1..]) && RootSeparator(tok[end + |seps[0]| - 1]))
  {
    hide RunEnd, RootSeparator, SkipSeparator, Separator, Plain;
    var end := start + |cs[0]|;
    if seps == [] {
      assert tok[start..end] == cs[0];
      PlainRun(tok, start, end);
    } else {
      var rest := Printed(cs[1..], seps[1..]);
      Cut(tok, start, cs[0], seps[0], rest);
      assert forall i :: 0 <= i < |cs[1..]| ==> cs[1..][i] == cs[i + 1];
      NextByte(cs[1..], seps[1..]);
      SeparatorEnd(tok, end, seps[0], rest);
      PlainRun(tok, start, end);
    }
  }

  lemma {:induction false} Cut(tok: string, start: nat, c: string, sep: string, rest: string)
    requires start <= |tok| && tok[start..] == c + (sep + rest)
    ensures start + |c| + |sep| <= |tok| && tok[start..start + |c|] == c && tok[start + |c|..] == sep + rest
    ensures tok[start + |c| + |sep|..] == rest
  {
    assert tok[start..start + |c|] == tok[start..][..|c|];
    assert tok[start + |c|..] == tok[start..][|c|..];
    assert tok[start + |c| + |sep|..] == tok[start + |c|..][|sep|..];
  }

  lemma {:induction false} NextByte(cs: seq<string>, seps: seq<string>)
    requires |cs| == |seps| + 1
    requires forall i :: 0 <= i < |cs| ==> Plain(cs[i])
    ensures Printed(cs, seps) != "" && (cs[0] != "" || (seps != [] && seps[0] == "/")) ==> Printed(cs, seps)[0] != '\\'
    ensures seps == [] && cs[0] == "" ==> Printed(cs, seps) == ""
  {
  }

  lemma {:induction false} PlainRun(tok: string, start: nat, end: nat)
    requires start <= end <= |tok| && Plain(tok[start..end]) && (end < |tok| ==> RootSeparator(tok[end]))
    ensures RunEnd(tok, start, NotSeparator) == end
  {
    RunBetween(tok, start, end, NotSeparator);
  }

  lemma {:induction false} SeparatorEnd(tok: string, end: nat, sep: string, rest: string)
    requires end <= |tok| && tok[end..] == sep + rest && Separator(sep) && (sep == "/" || rest == "" || rest[0] != '\\')
    ensures end < |tok| && RootSeparator(tok[end]) && SkipSeparator(tok, end) == end + |sep| <= |tok|
    ensures RootSeparator(tok[end + |sep| - 1])
  {
    hide RunEnd;
    assert forall i :: 0 <= i < |sep| ==> tok[end + i] == tok[end..][i] == sep[i];
    if sep != "/" {
      assert rest != "" ==> tok[end + |sep|] == tok[end..][|sep|] == rest[0];
      assert tok[end..end + |sep|] == sep;
      RunBetween(tok, end, end + |sep|, Backslash);
    }
  }

  /** Every token is written so. */
  lemma {:induction false} PrintedExists(tok: string) returns (cs: seq<string>, seps: seq<string>)
    ensures |cs| == |seps| + 1 && WellPrinted(cs, seps) && Printed(cs, seps) == tok
    decreases |tok|
  {
    hide RunEnd, SkipSeparator, Separator, Plain, WellPrinted;
    var end := RunEnd(tok, 0, NotSeparator);
    PlainPrefix(tok, end);
    if end == |tok| {
      cs, seps := [tok], [];
      assert tok[..end] == tok;
      AloneWellPrinted(tok);
    } else {
      var next := SkipSeparator(tok, end);
      SeparatorThere(tok, end, next);
      var head, sep, rest := tok[..end], tok[end..next], tok[next..];
      cs, seps := PrintedExists(rest);
      var after, marks := cs, seps;
      cs, seps := [head] + cs, [sep] + seps;
      assert cs[1..] == after && seps[1..] == marks;
      MoreWellPrinted(head, sep, after, marks);
      assert tok == head + (sep + rest);
    }
  }

  lemma {:induction false} PlainPrefix(tok: string, end: nat)
    requires end == RunEnd(tok, 0, NotSeparator)
    ensures end <= |tok| && Plain(tok[..end]) && (end < |tok| ==> RootSeparator(tok[end]))
  {
    hide RunEnd;
    forall i | 0 <= i < end
      ensures !RootSeparator(tok[i])
    {
      RunByte(tok, 0, NotSeparator, i);
    }
  }

  lemma {:induction false} AloneWellPrinted(c: string)
    requires Plain(c)
    ensures WellPrinted([c], [])
  {
  }

  lemma {:induction false} SeparatorThere(tok: string, end: nat, next: nat)
    requires end < |tok| && RootSeparator(tok[end]) && next == SkipSeparator(tok, end)
    ensures Separator(tok[end..next]) && (tok[end..next] == "/" || next == |tok| || tok[next] != '\\')
  {
    hide RunEnd;
    var sep := tok[end..next];
    if tok[end] == '/' {
      assert sep == "/";
    } else {
      forall i | 0 <= i < |sep|
        ensures sep[i] == '\\'
      {
        RunByte(tok, end, Backslash, end + i);
      }
    }
  }

  lemma {:induction false} MoreWellPrinted(head: string, sep: string, cs: seq<string>, seps: seq<string>)
    requires Plain(head) && Separator(sep) && |cs| == |seps| + 1 && WellPrinted(cs, seps)
    requires sep == "/" || Printed(cs, seps) == "" || Printed(cs, seps)[0] != '\\'
    ensures WellPrinted([head] + cs, [sep] + seps)
  {
    hide Plain;
    var all, marks := [head] + cs, [sep] + seps;
    assert forall i :: 0 < i < |all| ==> all[i] == cs[i - 1];
    assert forall i :: 0 < i < |marks| ==> marks[i] == seps[i - 1];
    if seps != [] && cs[0] == "" && seps[0] != "/" {
      assert Printed(cs, seps)[0] == seps[0][0];
    }
  }

  lemma {:induction false} TailWellPrinted(cs: seq<string>, seps: seq<string>)
    requires |cs| == |seps| + 1 && WellPrinted(cs, seps) && seps != []
    ensures WellPrinted(cs[1..], seps[1..])
  {
    hide Plain, Separator;
    var ds, tails := cs[1..], seps[1..];
    assert forall i :: 0 <= i < |ds| ==> ds[i] == cs[i + 1];
    assert forall i :: 0 <= i < |tails| ==> tails[i] == seps[i + 1];
    forall i | 0 <= i < |tails| - 1
      ensures tails[i] == "/" || ds[i + 1] != "" || tails[i + 1] == "/"
    {
      assert seps[i + 1] == "/" || cs[i + 2] != "" || seps[i + 2] == "/";
    }
  }

  /** A component and its place, as the walk records them. */
  function PartAt(tok: string, c: string, at: nat): Part
    requires at <= |tok|
  {
    Part(Component(c, SepBefore(tok, at), PathFirstComponent(tok) == Some(at)), at + |c|)
  }

  lemma {:induction false} PartsTurn(tok: string, start: nat, c: string)
    requires start + |c| <= |tok| && tok[start..start + |c|] == c && RunEnd(tok, start, NotSeparator) == start + |c|
    ensures Parts(tok, start)[0] == PartAt(tok, c, start)
    ensures Parts(tok, start)[1..] == if start + |c| == |tok| then [] else Parts(tok, SkipSeparator(tok, start + |c|))
  {
    hide RunEnd, PathFirstComponent, SkipSeparator, SepBefore;
  }

  /** The walk reads the components as they were written, each at its place. */
  lemma {:induction false} PartsOfPrinted(tok: string, start: nat, cs: seq<string>, seps: seq<string>, i: nat)
    requires |cs| == |seps| + 1 && WellPrinted(cs, seps) && start <= |tok| && tok[start..] == Printed(cs, seps) && i < |cs|
    ensures |Parts(tok, start)| == |cs|
    ensures var at := start + Begin(cs, seps, i);
      at + |cs[i]| <= |tok| && Parts(tok, start)[i] == PartAt(tok, cs[i], at) && (i > 0 ==> at > 0 && RootSeparator(tok[at - 1]))
    decreases |cs|
  {
    hide RunEnd, PartAt, WellPrinted, RootSeparator, SkipSeparator, Parts, Printed, Begin;
    PrintedHead(tok, start, cs, seps);
    PartsTurn(tok, start, cs[0]);
    BeginIs(cs, seps, i);
    if seps != [] {
      var next := start + |cs[0]| + |seps[0]|;
      TailWellPrinted(cs, seps);
      PartsOfPrinted(tok, next, cs[1..], seps[1..], if i > 0 then i - 1 else 0);
      assert i > 0 ==> Parts(tok, start)[i] == Parts(tok, start)[1..][i - 1];
      if i == 1 {
        BeginIs(cs[1..], seps[1..], 0);
      }
    }
  }

  lemma {:induction false} BeginIs(cs: seq<string>, seps: seq<string>, i: nat)
    requires |cs| == |seps| + 1 && i < |cs|
    ensures Begin(cs, seps, i) == if i == 0 then 0 else |cs[0]| + |seps[0]| + Begin(cs[1..], seps[1..], i - 1)
  {
  }

  // ----- which roots end where -----

  /** Declared root `k` ends at component `i`: the components up to it are the root's, a separator stands before
      each, and a root of the token's start begins where the path opens. */
  predicate RootEnds(tok: string, cs: seq<string>, seps: seq<string>, k: nat, i: nat)
    requires |cs| == |seps| + 1 && k < |ROOTS| && i < |cs|
  {
    RootEndsThere(tok, cs, seps, ROOTS[k], i)
  }

  predicate RootEndsThere(tok: string, cs: seq<string>, seps: seq<string>, root: Root, i: nat)
    requires |cs| == |seps| + 1 && i < |cs|
  {
    var n := |root.segments|;
    && 1 <= n <= i && cs[i + 1 - n..i + 1] == root.segments
    && (root.anchor.TokenStart? ==> PathFirstComponent(tok) == Some(Begin(cs, seps, i + 1 - n)))
  }

  ghost predicate SomeRootEnds(tok: string, cs: seq<string>, seps: seq<string>, i: nat)
    requires |cs| == |seps| + 1 && i < |cs|
  {
    exists k :: 0 <= k < |ROOTS| && RootEnds(tok, cs, seps, k, i)
  }

  /** The first component at which a declared root ends. */
  ghost predicate FirstRootEnd(tok: string, cs: seq<string>, seps: seq<string>, i: nat)
    requires |cs| == |seps| + 1
  {
    i < |cs| && SomeRootEnds(tok, cs, seps, i) && forall j :: 0 <= j < i ==> !SomeRootEnds(tok, cs, seps, j)
  }

  /** The longest root that ends there. */
  ghost predicate LongestEnds(tok: string, cs: seq<string>, seps: seq<string>, i: nat, k: nat)
    requires |cs| == |seps| + 1 && i < |cs|
  {
    k < |ROOTS| && RootEnds(tok, cs, seps, k, i) &&
    forall l :: 0 <= l < |ROOTS| && RootEnds(tok, cs, seps, l, i) ==> |ROOTS[l].segments| <= |ROOTS[k].segments|
  }

  ghost predicate IsPrinted(tok: string, cs: seq<string>, seps: seq<string>) {
    |cs| == |seps| + 1 && WellPrinted(cs, seps) && tok == Printed(cs, seps)
  }

  function WalkedTo(tok: string, i: nat): seq<Component>
    requires i < |Parts(tok, 0)|
  {
    Walked(Parts(tok, 0)[..i + 1])
  }

  lemma {:induction false} PrintedParts(tok: string, cs: seq<string>, seps: seq<string>)
    requires IsPrinted(tok, cs, seps)
    ensures |Parts(tok, 0)| == |cs|
    ensures forall i :: 0 <= i < |cs| ==> Begin(cs, seps, i) + |cs[i]| <= |tok| && Parts(tok, 0)[i] == PartAt(tok, cs[i], Begin(cs, seps, i))
    ensures forall i :: 1 <= i < |cs| ==> Begin(cs, seps, i) > 0 && RootSeparator(tok[Begin(cs, seps, i) - 1])
  {
    hide Parts, WellPrinted, Printed, Begin, PartAt, RootSeparator;
    assert tok[0..] == tok;
    PartsOfPrinted(tok, 0, cs, seps, 0);
    forall i | 0 <= i < |cs|
      ensures Begin(cs, seps, i) + |cs[i]| <= |tok| && Parts(tok, 0)[i] == PartAt(tok, cs[i], Begin(cs, seps, i))
      ensures i > 0 ==> Begin(cs, seps, i) > 0 && RootSeparator(tok[Begin(cs, seps, i) - 1])
    {
      PartsOfPrinted(tok, 0, cs, seps, i);
    }
  }

  lemma {:induction false} WalkedAt(tok: string, cs: seq<string>, seps: seq<string>, i: nat)
    requires IsPrinted(tok, cs, seps) && i < |cs|
    ensures |Parts(tok, 0)| == |cs| && |[] + WalkedTo(tok, i)| == i + 1
    ensures forall j :: 0 <= j <= i ==> Begin(cs, seps, j) <= |tok| && ([] + WalkedTo(tok, i))[j] == PartAt(tok, cs[j], Begin(cs, seps, j)).component
    ensures forall j :: 1 <= j <= i ==> Begin(cs, seps, j) > 0 && RootSeparator(tok[Begin(cs, seps, j) - 1])
  {
    hide Parts, WellPrinted, Printed, Begin, PartAt, RootSeparator;
    PrintedParts(tok, cs, seps);
    var walked, ps := [] + WalkedTo(tok, i), Parts(tok, 0);
    forall j | 0 <= j <= i
      ensures walked[j] == PartAt(tok, cs[j], Begin(cs, seps, j)).component
    {
      assert ps[..i + 1][j] == ps[j];
    }
  }

  /** The model's matcher on the walked components, root by root. */
  lemma {:induction false} RootEndsIs(tok: string, cs: seq<string>, seps: seq<string>, k: nat, i: nat)
    requires IsPrinted(tok, cs, seps) && k < |ROOTS| && i < |cs|
    ensures |Parts(tok, 0)| == |cs| && (EndsWindow(ROOTS[k], [] + WalkedTo(tok, i)) <==> RootEnds(tok, cs, seps, k, i))
  {
    hide Parts, IsPrinted, EndsWindow, RootEndsThere, WalkedTo;
    ThereIs(tok, cs, seps, ROOTS[k], i);
  }

  /** Component `j` of the walk: the text, whether a separator stands before it, whether it opens the path. */
  predicate WalkedAs(tok: string, cs: seq<string>, seps: seq<string>, j: nat, c: Component)
    requires |cs| == |seps| + 1 && j < |cs|
  {
    c.text == cs[j] && (RootSeparator(c.before) <==> j > 0) && (c.atStart <==> PathFirstComponent(tok) == Some(Begin(cs, seps, j)))
  }

  lemma {:induction false} WalkIs(tok: string, cs: seq<string>, seps: seq<string>, i: nat)
    requires IsPrinted(tok, cs, seps) && i < |cs|
    ensures |Parts(tok, 0)| == |cs| && |[] + WalkedTo(tok, i)| == i + 1
    ensures forall j :: 0 <= j <= i ==> WalkedAs(tok, cs, seps, j, ([] + WalkedTo(tok, i))[j])
  {
    hide Parts, WellPrinted, Printed, RootSeparator, WalkedTo, PathFirstComponent, WalkedAs, PartAt, Begin;
    WalkedAt(tok, cs, seps, i);
    var walked := [] + WalkedTo(tok, i);
    forall j | 0 <= j <= i
      ensures WalkedAs(tok, cs, seps, j, walked[j])
    {
      PartIsWalked(tok, cs, seps, j);
    }
  }

  lemma {:induction false} PartIsWalked(tok: string, cs: seq<string>, seps: seq<string>, j: nat)
    requires |cs| == |seps| + 1 && j < |cs| && Begin(cs, seps, j) <= |tok|
    requires j > 0 ==> Begin(cs, seps, j) > 0 && RootSeparator(tok[Begin(cs, seps, j) - 1])
    ensures WalkedAs(tok, cs, seps, j, PartAt(tok, cs[j], Begin(cs, seps, j)).component)
  {
    hide PathFirstComponent;
    assert Begin(cs, seps, 0) == 0;
  }

  lemma {:induction false} ThereIs(tok: string, cs: seq<string>, seps: seq<string>, root: Root, i: nat)
    requires IsPrinted(tok, cs, seps) && i < |cs|
    ensures |Parts(tok, 0)| == |cs| && (EndsWindow(root, [] + WalkedTo(tok, i)) <==> RootEndsThere(tok, cs, seps, root, i))
  {
    hide Parts, WellPrinted, Printed, EndsWindow, RootEndsThere, WalkedTo, WalkedAs;
    WalkIs(tok, cs, seps, i);
    TailSpells(tok, cs, seps, root, i, [] + WalkedTo(tok, i));
  }

  lemma {:induction false} TailSpells(tok: string, cs: seq<string>, seps: seq<string>, root: Root, i: nat, walked: seq<Component>)
    requires |cs| == |seps| + 1 && i < |cs| && |walked| == i + 1 && forall j :: 0 <= j <= i ==> WalkedAs(tok, cs, seps, j, walked[j])
    ensures EndsWindow(root, walked) <==> RootEndsThere(tok, cs, seps, root, i)
  {
    hide PathFirstComponent, Begin, RootSeparator;
    var n := |root.segments|;
    if 0 < n <= i + 1 {
      var from := i + 1 - n;
      var tail, own := walked[from..], cs[from..i + 1];
      assert WalkedAs(tok, cs, seps, from, walked[from]);
      assert forall j :: 0 <= j < n ==> own[j] == tail[j].text && (RootSeparator(tail[j].before) <==> from + j > 0) by {
        forall j | 0 <= j < n
          ensures own[j] == tail[j].text && (RootSeparator(tail[j].before) <==> from + j > 0)
        {
          assert WalkedAs(tok, cs, seps, from + j, walked[from + j]);
        }
      }
      assert (forall j :: 0 <= j < n ==> tail[j].text == root.segments[j]) <==> own == root.segments;
    }
  }

  lemma {:induction false} SomeRootIs(tok: string, cs: seq<string>, seps: seq<string>, i: nat)
    requires IsPrinted(tok, cs, seps) && i < |cs|
    ensures |Parts(tok, 0)| == |cs| && (AnyRoot([] + WalkedTo(tok, i)) <==> SomeRootEnds(tok, cs, seps, i))
  {
    hide EndsWindow, RootEnds, Parts, IsPrinted, WalkedTo;
    PrintedPartsCount(tok, cs, seps);
    forall k | 0 <= k < |ROOTS|
      ensures EndsWindow(ROOTS[k], [] + WalkedTo(tok, i)) <==> RootEnds(tok, cs, seps, k, i)
    {
      RootEndsIs(tok, cs, seps, k, i);
    }
  }

  lemma {:induction false} PrintedPartsCount(tok: string, cs: seq<string>, seps: seq<string>)
    requires IsPrinted(tok, cs, seps)
    ensures |cs| == |seps| + 1 && |Parts(tok, 0)| == |cs|
  {
    PrintedParts(tok, cs, seps);
  }

  lemma {:induction false} LongestIs(tok: string, cs: seq<string>, seps: seq<string>, i: nat, k: nat)
    requires IsPrinted(tok, cs, seps) && i < |cs| && LongestEnds(tok, cs, seps, i, k)
    ensures |Parts(tok, 0)| == |cs| && LongestScope([] + WalkedTo(tok, i), ROOTS[k].scope)
  {
    hide EndsWindow, RootEnds, Parts, IsPrinted, WalkedTo;
    PrintedPartsCount(tok, cs, seps);
    var walked := [] + WalkedTo(tok, i);
    forall l | 0 <= l < |ROOTS|
      ensures EndsWindow(ROOTS[l], walked) <==> RootEnds(tok, cs, seps, l, i)
    {
      RootEndsIs(tok, cs, seps, l, i);
    }
    assert NoneLonger(walked, |ROOTS[k].segments|);
  }

  lemma {:induction false} FirstEndIs(tok: string, cs: seq<string>, seps: seq<string>, i: nat, k: nat)
    requires IsPrinted(tok, cs, seps) && FirstRootEnd(tok, cs, seps, i) && LongestEnds(tok, cs, seps, i, k)
    ensures |Parts(tok, 0)| == |cs| && FirstAt([], Parts(tok, 0), i, RootHit(Begin(cs, seps, i) + |cs[i]|, ROOTS[k].scope))
  {
    hide EndsWindow, RootEnds, SomeRootEnds, AnyRoot, LongestScope, Parts, IsPrinted, LongestEnds, PathFirstComponent, Begin;
    PrintedPartsOf(tok, cs, seps, i);
    LongestIs(tok, cs, seps, i, k);
    forall j | 0 <= j < i
      ensures Rootless([], Parts(tok, 0), j)
    {
      SomeRootIs(tok, cs, seps, j);
    }
  }

  lemma {:induction false} PrintedPartsOf(tok: string, cs: seq<string>, seps: seq<string>, i: nat)
    requires IsPrinted(tok, cs, seps) && i < |cs|
    ensures |cs| == |seps| + 1 && |Parts(tok, 0)| == |cs| && Parts(tok, 0)[i].end == Begin(cs, seps, i) + |cs[i]| <= |tok|
  {
    hide PathFirstComponent, Begin, Parts;
    PrintedParts(tok, cs, seps);
  }

  /** Behind a component stands its separator and then the next component. */
  lemma {:induction false} NextBegins(tok: string, cs: seq<string>, seps: seq<string>, start: nat, i: nat)
    requires |cs| == |seps| + 1 && WellPrinted(cs, seps) && start <= |tok| && tok[start..] == Printed(cs, seps) && i < |cs|
    ensures var end := start + Begin(cs, seps, i) + |cs[i]|;
      && end <= |tok| && (i + 1 == |cs| ==> end == |tok|)
      && (i + 1 < |cs| ==> end < |tok| && RootSeparator(tok[end]) && SkipSeparator(tok, end) == start + Begin(cs, seps, i + 1))
    ensures i + 1 < |cs| ==> var next := start + Begin(cs, seps, i + 1);
      && next + |cs[i + 1]| <= |tok| && RunEnd(tok, next, NotSeparator) == next + |cs[i + 1]| && tok[next..next + |cs[i + 1]|] == cs[i + 1]
    decreases i
  {
    hide RunEnd, WellPrinted, RootSeparator, SkipSeparator, Printed, Begin;
    PrintedHead(tok, start, cs, seps);
    BeginIs(cs, seps, i);
    if seps != [] {
      var next := start + |cs[0]| + |seps[0]|;
      TailWellPrinted(cs, seps);
      if i + 1 < |cs| {
        BeginIs(cs, seps, i + 1);
      }
      if i == 0 {
        BeginIs(cs[1..], seps[1..], 0);
        PrintedHead(tok, next, cs[1..], seps[1..]);
      } else {
        NextBegins(tok, cs[1..], seps[1..], next, i - 1);
      }
    }
  }

  lemma {:induction false} LongestExists(tok: string, cs: seq<string>, seps: seq<string>, i: nat) returns (k: nat)
    requires |cs| == |seps| + 1 && i < |cs| && SomeRootEnds(tok, cs, seps, i)
    ensures LongestEnds(tok, cs, seps, i, k)
  {
    hide RootEnds;
    var l :| 0 <= l < |ROOTS| && RootEnds(tok, cs, seps, l, i);
    k := LongestFrom(tok, cs, seps, i, 0, l);
  }

  lemma {:induction false} LongestFrom(tok: string, cs: seq<string>, seps: seq<string>, i: nat, at: nat, best: nat) returns (k: nat)
    requires |cs| == |seps| + 1 && i < |cs| && at <= |ROOTS| && best < |ROOTS| && RootEnds(tok, cs, seps, best, i)
    requires forall l :: 0 <= l < at && RootEnds(tok, cs, seps, l, i) ==> |ROOTS[l].segments| <= |ROOTS[best].segments|
    ensures LongestEnds(tok, cs, seps, i, k)
    decreases |ROOTS| - at
  {
    hide RootEnds;
    if at == |ROOTS| {
      k := best;
    } else if RootEnds(tok, cs, seps, at, i) && |ROOTS[at].segments| > |ROOTS[best].segments| {
      k := LongestFrom(tok, cs, seps, i, at + 1, at);
    } else {
      k := LongestFrom(tok, cs, seps, i, at + 1, best);
    }
  }

  /** The rule, component by component. At the first component at which a declared root ends, the longest one
      decides: when a component that is not empty follows, it is masked, and for a subtree root all that follows
      it too; when none does, or no root ends anywhere, the token is not claimed. */
  lemma {:induction false} EphemeralExactly(tok: string, cs: seq<string>, seps: seq<string>)
    requires IsPrinted(tok, cs, seps)
    ensures forall i: nat, k: nat :: i < |cs| && k < |ROOTS| && FirstRootEnd(tok, cs, seps, i) && LongestEnds(tok, cs, seps, i, k) ==>
      if i + 1 == |cs| || cs[i + 1] == "" then EphemeralRoot(tok) == None
      else
        var start := Begin(cs, seps, i + 1);
        start + |cs[i + 1]| <= |tok| &&
        EphemeralRoot(tok) == Some(MaskRange(tok, start, if ROOTS[k].scope.Instance? then start + |cs[i + 1]| else |tok|))
    ensures (forall i: nat :: !FirstRootEnd(tok, cs, seps, i)) ==> EphemeralRoot(tok) == None
  {
    hide FirstRootEnd, LongestEnds, EphemeralRoot, FirstAt, Parts, IsPrinted, MaskRange, Begin;
    PrintedPartsCount(tok, cs, seps);
    EphemeralRootExactly(tok);
    forall i: nat, k: nat | i < |cs| && k < |ROOTS| && FirstRootEnd(tok, cs, seps, i) && LongestEnds(tok, cs, seps, i, k)
      ensures if i + 1 == |cs| || cs[i + 1] == "" then EphemeralRoot(tok) == None
        else
          var start := Begin(cs, seps, i + 1);
          start + |cs[i + 1]| <= |tok| &&
          EphemeralRoot(tok) == Some(MaskRange(tok, start, if ROOTS[k].scope.Instance? then start + |cs[i + 1]| else |tok|))
    {
      EphemeralAt(tok, cs, seps, i, k);
    }
    if forall i: nat :: !FirstRootEnd(tok, cs, seps, i) {
      NoRootNoClaim(tok, cs, seps);
    }
  }

  lemma {:induction false} EphemeralAt(tok: string, cs: seq<string>, seps: seq<string>, i: nat, k: nat)
    requires IsPrinted(tok, cs, seps) && k < |ROOTS| && FirstRootEnd(tok, cs, seps, i) && LongestEnds(tok, cs, seps, i, k)
    ensures if i + 1 == |cs| || cs[i + 1] == "" then EphemeralRoot(tok) == None
      else
        var start := Begin(cs, seps, i + 1);
        start + |cs[i + 1]| <= |tok| &&
        EphemeralRoot(tok) == Some(MaskRange(tok, start, if ROOTS[k].scope.Instance? then start + |cs[i + 1]| else |tok|))
  {
    hide LongestEnds, EphemeralRoot, FirstAt, Parts, MaskRange, Begin, RunEnd, SkipSeparator, WellPrinted, SomeRootEnds, Printed;
    var hit := RootHit(Begin(cs, seps, i) + |cs[i]|, ROOTS[k].scope);
    FirstEndIs(tok, cs, seps, i, k);
    assert tok[0..] == tok;
    NextBegins(tok, cs, seps, 0, i);
    EphemeralRootExactly(tok);
    if i + 1 < |cs| {
      InstanceThere(tok, hit.end, Begin(cs, seps, i + 1), cs[i + 1]);
    }
    if !HasInstance(tok, hit.end) {
      forall j: nat, other | FirstAt([], Parts(tok, 0), j, other)
        ensures other == hit
      {
        HitsAgree(tok, i, hit, j, other);
      }
    }
  }

  lemma {:induction false} HitsAgree(tok: string, i: nat, hit: RootHit, j: nat, other: RootHit)
    requires FirstAt([], Parts(tok, 0), i, hit) && FirstAt([], Parts(tok, 0), j, other)
    ensures other == hit
  {
    hide FirstAt, Parts;
    FirstIsUnique([], Parts(tok, 0), i, hit, Some(other));
  }

  lemma {:induction false} InstanceThere(tok: string, end: nat, next: nat, c: string)
    requires end < |tok| && RootSeparator(tok[end]) && SkipSeparator(tok, end) == next && next + |c| <= |tok|
    requires RunEnd(tok, next, NotSeparator) == next + |c|
    ensures HasInstance(tok, end) <==> c != ""
  {
    hide SkipSeparator;
  }

  lemma {:induction false} NoRootNoClaim(tok: string, cs: seq<string>, seps: seq<string>)
    requires IsPrinted(tok, cs, seps) && forall i: nat :: !FirstRootEnd(tok, cs, seps, i)
    ensures EphemeralRoot(tok) == None
  {
    hide EphemeralRoot, FirstAt, Parts, IsPrinted;
    PrintedPartsCount(tok, cs, seps);
    NoneEnds(tok, cs, seps, |cs|);
    EphemeralRootExactly(tok);
    forall i: nat, hit
      ensures !FirstAt([], Parts(tok, 0), i, hit)
    {
      if FirstAt([], Parts(tok, 0), i, hit) {
        FirstHasRoot(tok, i, hit);
        SomeRootIs(tok, cs, seps, i);
      }
    }
  }

  lemma {:induction false} FirstHasRoot(tok: string, i: nat, hit: RootHit)
    requires FirstAt([], Parts(tok, 0), i, hit)
    ensures i < |Parts(tok, 0)| && AnyRoot([] + WalkedTo(tok, i))
  {
    hide EndsWindow, Parts;
  }

  lemma {:induction false} NoneEnds(tok: string, cs: seq<string>, seps: seq<string>, n: nat)
    requires |cs| == |seps| + 1 && n <= |cs| && forall i: nat :: !FirstRootEnd(tok, cs, seps, i)
    ensures forall j :: 0 <= j < n ==> !SomeRootEnds(tok, cs, seps, j)
  {
    hide SomeRootEnds;
    if n > 0 {
      NoneEnds(tok, cs, seps, n - 1);
      assert !FirstRootEnd(tok, cs, seps, n - 1);
    }
  }

  // ----- the catalogue, as paths -----

  /** A root's path from the start of the token, then an instance and one more component. */
  function RootedParts(names: seq<string>, x: string, y: string): seq<string> {
    [""] + names + [x, y]
  }

  function Slashes(n: nat): (seps: seq<string>)
    ensures |seps| == n && forall i :: 0 <= i < n ==> seps[i] == "/"
  {
    if n == 0 then [] else ["/"] + Slashes(n - 1)
  }

  lemma {:induction false} RootNamesPlain(k: nat, i: nat)
    requires k < |ROOTS| && i < |ROOTS[k].segments|
    ensures Plain(ROOTS[k].segments[i]) && 1 <= |ROOTS[k].segments| <= 3
  {
  }

  /** No other root ends earlier on a root's own path, and none as long ends with it. */
  lemma {:induction false} OwnPath(k: nat, l: nat, m: nat)
    requires k < |ROOTS| && l < |ROOTS| && 0 < |ROOTS[l].segments| <= m <= |ROOTS[k].segments|
    requires ROOTS[k].segments[m - |ROOTS[l].segments|..m] == ROOTS[l].segments
    requires ROOTS[l].anchor.TokenStart? ==> m == |ROOTS[l].segments|
    ensures k == l && m == |ROOTS[k].segments|
  {
    var a, b, n := ROOTS[k].segments, ROOTS[l].segments, |ROOTS[l].segments|;
    assert a[m - n..m][0] == a[m - n] == b[0] && a[m - n..m][n - 1] == a[m - 1] == b[n - 1];
  }

  lemma {:induction false} BeginGrows(cs: seq<string>, seps: seq<string>, i: nat, j: nat)
    requires |cs| == |seps| + 1 && i < j < |cs| && forall m :: 0 <= m < |seps| ==> seps[m] != ""
    ensures Begin(cs, seps, i) < Begin(cs, seps, j)
    decreases j
  {
    if i > 0 {
      BeginGrows(cs[1..], seps[1..], i - 1, j - 1);
    } else if j > 1 {
      BeginGrows(cs[1..], seps[1..], 0, j - 1);
    }
  }

  /** The instance behind a root's own path is masked, alone or with all behind it as the root says. */
  lemma {:induction false} RootedToken(k: nat, x: string, y: string, tok: string)
    requires k < |ROOTS| && Plain(x) && Plain(y) && x != ""
    requires var names := ROOTS[k].segments; tok == Printed(RootedParts(names, x, y), Slashes(|names| + 2))
    ensures var names := ROOTS[k].segments;
      var start := Begin(RootedParts(names, x, y), Slashes(|names| + 2), |names| + 1);
      start + |x| <= |tok| && EphemeralRoot(tok) == Some(MaskRange(tok, start, if ROOTS[k].scope.Instance? then start + |x| else |tok|))
  {
    hide EphemeralRoot, MaskRange, PathFirstComponent, Begin, LongestEnds, FirstRootEnd;
    var names := ROOTS[k].segments;
    var cs, seps, n := RootedParts(names, x, y), Slashes(|names| + 2), |names|;
    forall i | 0 <= i < |cs|
      ensures Plain(cs[i])
    {
      if 1 <= i <= n {
        RootNamesPlain(k, i - 1);
      }
    }
    RootNamesPlain(k, 0);
    OwnPathOpens(names, x, y, tok);
    OwnRootFirst(k, x, y, tok);
    EphemeralExactly(tok, cs, seps);
    assert cs[n + 1] == x;
  }

  lemma {:induction false} OwnPathOpens(names: seq<string>, x: string, y: string, tok: string)
    requires names != [] && tok == Printed(RootedParts(names, x, y), Slashes(|names| + 2))
    ensures PathFirstComponent(tok) == Some(1) && Begin(RootedParts(names, x, y), Slashes(|names| + 2), 1) == 1
  {
    hide PathFirstComponent;
    var cs, seps := RootedParts(names, x, y), Slashes(|names| + 2);
    assert tok[0] == '/';
    assert Begin(cs[1..], seps[1..], 0) == 0;
    PathOpens(tok, 0, 0, 0, 0);
  }

  lemma {:induction false} OwnRootFirst(k: nat, x: string, y: string, tok: string)
    requires k < |ROOTS| && PathFirstComponent(tok) == Some(1)
    requires Begin(RootedParts(ROOTS[k].segments, x, y), Slashes(|ROOTS[k].segments| + 2), 1) == 1
    ensures var names := ROOTS[k].segments;
      var cs, seps := RootedParts(names, x, y), Slashes(|names| + 2);
      FirstRootEnd(tok, cs, seps, |names|) && LongestEnds(tok, cs, seps, |names|, k)
  {
    hide PathFirstComponent, Begin, RootEnds;
    var names := ROOTS[k].segments;
    var cs, seps, n := RootedParts(names, x, y), Slashes(|names| + 2), |names|;
    OwnRootEnds(k, x, y, tok);
    forall l, j | 0 <= l < |ROOTS| && 0 <= j <= n && RootEnds(tok, cs, seps, l, j)
      ensures l == k && j == n
    {
      OnlyOwnRoot(k, l, j, x, y, tok);
    }
    assert SomeRootEnds(tok, cs, seps, n);
    forall j | 0 <= j < n
      ensures !SomeRootEnds(tok, cs, seps, j)
    {
    }
  }

  lemma {:induction false} OwnRootEnds(k: nat, x: string, y: string, tok: string)
    requires k < |ROOTS| && PathFirstComponent(tok) == Some(1)
    requires Begin(RootedParts(ROOTS[k].segments, x, y), Slashes(|ROOTS[k].segments| + 2), 1) == 1
    ensures var names := ROOTS[k].segments; RootEnds(tok, RootedParts(names, x, y), Slashes(|names| + 2), k, |names|)
  {
    hide PathFirstComponent, Begin;
    RootNamesPlain(k, 0);
    var names := ROOTS[k].segments;
    assert RootedParts(names, x, y)[1..|names| + 1] == names;
  }

  lemma {:induction false} OnlyOwnRoot(k: nat, l: nat, j: nat, x: string, y: string, tok: string)
    requires k < |ROOTS| && l < |ROOTS| && j <= |ROOTS[k].segments| && PathFirstComponent(tok) == Some(1)
    requires Begin(RootedParts(ROOTS[k].segments, x, y), Slashes(|ROOTS[k].segments| + 2), 1) == 1
    requires RootEnds(tok, RootedParts(ROOTS[k].segments, x, y), Slashes(|ROOTS[k].segments| + 2), l, j)
    ensures l == k && j == |ROOTS[k].segments|
  {
    hide PathFirstComponent, Begin;
    var names, m := ROOTS[k].segments, |ROOTS[l].segments|;
    var cs, seps := RootedParts(names, x, y), Slashes(|names| + 2);
    assert cs[j + 1 - m..j + 1] == names[j - m..j];
    if ROOTS[l].anchor.TokenStart? && j + 1 - m > 1 {
      BeginGrows(cs, seps, 1, j + 1 - m);
    }
    OwnPath(k, l, j);
  }

  /** Names behind a slash each. */
  function PathText(names: seq<string>): string {
    if names == [] then "" else "/" + names[0] + PathText(names[1..])
  }

  lemma {:induction false} PrintedPath(c: string, names: seq<string>, x: string, y: string)
    ensures var cs, seps := [c] + names + [x, y], Slashes(|names| + 2);
      Printed(cs, seps) == c + PathText(names) + "/" + x + "/" + y && Begin(cs, seps, |names| + 1) == |c| + |PathText(names)| + 1
    decreases |names|
  {
    var cs, seps := [c] + names + [x, y], Slashes(|names| + 2);
    assert seps[1..] == Slashes(|names| + 1);
    if names == [] {
      assert cs == [c, x, y] && cs[1..] == [x, y] && seps == ["/", "/"];
      TwoLast(c, x, y);
    } else {
      PrintedPath(names[0], names[1..], x, y);
      assert cs[1..] == [names[0]] + names[1..] + [x, y];
      FivePieces(c, names[0], PathText(names[1..]), x, y);
    }
  }

  lemma {:induction false} TwoLast(c: string, x: string, y: string)
    ensures Printed([c, x, y], ["/", "/"]) == c + "" + "/" + x + "/" + y && Begin([c, x, y], ["/", "/"], 1) == |c| + 1
  {
    assert [c, x, y][1..] == [x, y] && [x, y][1..] == [y] && ["/", "/"][1..] == ["/"] && ["/"][1..] == [];
    assert Printed([y], []) == y;
    assert Printed([x, y], ["/"]) == x + ("/" + y);
    assert Begin([x, y], ["/"], 0) == 0;
  }

  lemma {:induction false} FivePieces(c: string, a: string, rest: string, x: string, y: string)
    ensures c + ("/" + (a + rest + "/" + x + "/" + y)) == c + ("/" + a + rest) + "/" + x + "/" + y
  {
  }

  /** Behind a path's bytes the component `x` is masked, alone or with all behind it. */
  predicate MasksFrom(path: string, x: string, y: string, all: bool)
    requires path != ""
  {
    var tok := path + "/" + x + "/" + y;
    EphemeralRoot(tok) == Some(MaskRange(tok, |path| + 1, if all then |tok| else |path| + 1 + |x|))
  }

  lemma {:induction false} PathHead(names: seq<string>)
    ensures names != [] ==> PathText(names) != ""
  {
  }

  lemma {:induction false} RootMasks(k: nat, x: string, y: string)
    requires k < |ROOTS| && Plain(x) && Plain(y) && x != ""
    ensures PathText(ROOTS[k].segments) != "" && MasksFrom(PathText(ROOTS[k].segments), x, y, ROOTS[k].scope.Subtree?)
  {
    hide EphemeralRoot, MaskRange, Printed, Begin, PathText, Slashes, Plain;
    var names := ROOTS[k].segments;
    RootNamesPlain(k, 0);
    PathHead(names);
    PrintedPath("", names, x, y);
    assert "" + PathText(names) == PathText(names);
    RootedToken(k, x, y, PathText(names) + "/" + x + "/" + y);
  }

  lemma {:induction false} RootTexts()
    ensures PathText(["tmp"]) == "/tmp" && PathText(["var", "tmp"]) == "/var/tmp" && PathText(["var", "folders"]) == "/var/folders"
    ensures PathText([".conan2", "p", "b"]) == "/.conan2/p/b" && PathText(["nix", "store"]) == "/nix/store"
    ensures PathText(["private", "var", "folders"]) == "/private/var/folders" && PathText(["private", "tmp"]) == "/private/tmp"
    ensures PathText(["AppData", "Local", "Temp"]) == "/AppData/Local/Temp"
  {
    hide PathText;
    OneText("tmp");
    TwoTexts("var", "tmp");
    TwoTexts("var", "folders");
    TwoTexts("nix", "store");
    TwoTexts("private", "tmp");
    ThreeTexts(".conan2", "p", "b");
    ThreeTexts("private", "var", "folders");
    ThreeTexts("AppData", "Local", "Temp");
  }

  lemma {:induction false} OneText(a: string)
    ensures PathText([a]) == "/" + a
  {
    assert [a][1..] == [];
  }

  lemma {:induction false} TwoTexts(a: string, b: string)
    ensures PathText([a, b]) == "/" + a + "/" + b
  {
    assert [a, b][1..] == [b];
    OneText(b);
  }

  lemma {:induction false} ThreeTexts(a: string, b: string, c: string)
    ensures PathText([a, b, c]) == "/" + a + "/" + b + "/" + c
  {
    assert [a, b, c][1..] == [b, c];
    TwoTexts(b, c);
  }

  /** The declared roots as paths: behind six of them all that follows is masked, behind the last two the next
      component alone. */
  lemma {:induction false} RootCatalogue(x: string, y: string)
    requires Plain(x) && Plain(y) && x != ""
    ensures MasksFrom("/tmp", x, y, true) && MasksFrom("/var/tmp", x, y, true) && MasksFrom("/var/folders", x, y, true)
    ensures MasksFrom("/private/var/folders", x, y, true) && MasksFrom("/private/tmp", x, y, true)
    ensures MasksFrom("/AppData/Local/Temp", x, y, true)
    ensures MasksFrom("/.conan2/p/b", x, y, false) && MasksFrom("/nix/store", x, y, false)
  {
    hide MasksFrom, PathText, Plain;
    RootTexts();
    RootMasks(0, x, y);
    RootMasks(1, x, y);
    RootMasks(2, x, y);
    RootMasks(3, x, y);
    RootMasks(4, x, y);
    RootMasks(5, x, y);
    RootMasks(6, x, y);
    RootMasks(7, x, y);
  }
}
