/**
 Declared values (claim_declared_runs in core/src/identity/intent_identity.cpp, and the two loops that
 read a wildcard over its claims: replace_declared_runs in core/src/mask/mask.cpp and
 declared_discriminant_of). A digit run is claimed behind one of a value's markers.
 */
module DeclaredRuns {
  import opened Wrappers
  import opened Text
  import opened Intent

  datatype Run = Run(markers: seq<string>, value: string)
  datatype Claimed = Claimed(first: nat, last: nat)

  predicate IsAlpha(c: char) {
    'a' <= c <= 'z' || 'A' <= c <= 'Z'
  }

  /** What composition admits: a marker is not empty and does not end in a digit. */
  predicate GoodMarker(m: string) {
    m != "" && !Digit(m[|m| - 1])
  }

  predicate GoodRun(run: Run) {
    forall i :: 0 <= i < |run.markers| ==> GoodMarker(run.markers[i])
  }

  predicate GoodRuns(runs: seq<Run>) {
    forall i :: 0 <= i < |runs| ==> GoodRun(runs[i])
  }

  /** A marker opens the form or follows a byte that is neither a letter nor a digit. */
  predicate Boundary(form: string, pos: nat) {
    pos == 0 || (pos <= |form| && !IsAlpha(form[pos - 1]) && !Digit(form[pos - 1]))
  }

  predicate StartsAt(form: string, pos: nat, m: string) {
    pos <= |form| && m <= form[pos..]
  }

  /** The digit run a marker opens at `pos`: not empty, and no letter right after it. */
  function Opens(form: string, pos: nat, m: string): (c: Option<Claimed>)
    ensures c.Some? ==> pos + |m| == c.value.first < c.value.last <= |form|
  {
    if !StartsAt(form, pos, m) then None
    else
      var first := pos + |m|;
      var end := DigitsEnd(form, first);
      if end == first || (end < |form| && IsAlpha(form[end])) then None else Some(Claimed(first, end))
  }

  /** The first of the markers that opens a run. */
  function FirstOpen(form: string, pos: nat, markers: seq<string>): (c: Option<Claimed>)
    ensures c.Some? ==> pos <= c.value.first < c.value.last <= |form|
  {
    if markers == [] then None
    else if Opens(form, pos, markers[0]).Some? then Opens(form, pos, markers[0])
    else FirstOpen(form, pos, markers[1..])
  }

  function Valued(form: string, c: Claimed, value: string): seq<Claimed>
    requires c.first <= c.last <= |form|
  {
    if form[c.first..c.last] == value then [c] else []
  }

  /** What one run claims from `pos` on. */
  function RunClaims(form: string, pos: nat, run: Run): seq<Claimed>
    decreases |form| - pos
  {
    if pos >= |form| then []
    else if !Boundary(form, pos) then RunClaims(form, pos + 1, run)
    else
      match FirstOpen(form, pos, run.markers)
      case None => RunClaims(form, pos + 1, run)
      case Some(c) => Valued(form, c, run.value) + RunClaims(form, c.last, run)
  }

  function AllClaims(form: string, runs: seq<Run>): seq<Claimed> {
    if runs == [] then [] else RunClaims(form, 0, runs[0]) + AllClaims(form, runs[1..])
  }

  // ----- the library sort and unique -----

  function Insert(c: Claimed, sorted: seq<Claimed>): seq<Claimed> {
    if sorted == [] || c.first <= sorted[0].first then [c] + sorted else [sorted[0]] + Insert(c, sorted[1..])
  }

  /** Sorted by the first byte. */
  function Sorted(claims: seq<Claimed>): seq<Claimed> {
    if claims == [] then [] else Insert(claims[0], Sorted(claims[1..]))
  }

  /** Without repetitions of a neighbour. */
  function Unique(claims: seq<Claimed>): seq<Claimed> {
    if |claims| < 2 then claims
    else if claims[0] == claims[1] then Unique(claims[1..])
    else [claims[0]] + Unique(claims[1..])
  }

  function Claims(form: string, runs: seq<Run>): seq<Claimed> {
    Unique(Sorted(AllClaims(form, runs)))
  }

  predicate Nondecreasing(claims: seq<Claimed>) {
    forall i, j :: 0 <= i < j < |claims| ==> claims[i].first <= claims[j].first
  }

  lemma {:induction false} InsertKeeps(c: Claimed, sorted: seq<Claimed>)
    ensures multiset(Insert(c, sorted)) == multiset{c} + multiset(sorted)
  {
    if sorted != [] && c.first > sorted[0].first {
      InsertKeeps(c, sorted[1..]);
      assert sorted == [sorted[0]] + sorted[1..];
    }
  }

  lemma {:induction false} ConsNondecreasing(c: Claimed, rest: seq<Claimed>)
    requires Nondecreasing(rest) && forall d :: d in rest ==> c.first <= d.first
    ensures Nondecreasing([c] + rest)
  {
  }

  lemma {:induction false} InsertSorts(c: Claimed, sorted: seq<Claimed>)
    requires Nondecreasing(sorted)
    ensures Nondecreasing(Insert(c, sorted))
  {
    if sorted == [] || c.first <= sorted[0].first {
      ConsNondecreasing(c, sorted);
    } else {
      InsertSorts(c, sorted[1..]);
      InsertKeeps(c, sorted[1..]);
      var rest := Insert(c, sorted[1..]);
      forall d | d in rest
        ensures sorted[0].first <= d.first
      {
        assert d in multiset(rest);
      }
      hide Nondecreasing, Insert;
      ConsNondecreasing(sorted[0], rest);
    }
  }

  lemma {:induction false} SortedSorts(claims: seq<Claimed>)
    ensures Nondecreasing(Sorted(claims)) && multiset(Sorted(claims)) == multiset(claims)
  {
    if claims != [] {
      SortedSorts(claims[1..]);
      InsertSorts(claims[0], Sorted(claims[1..]));
      InsertKeeps(claims[0], Sorted(claims[1..]));
      assert claims == [claims[0]] + claims[1..];
    }
  }

  /** Claims that share their first byte are the same claim. */
  predicate Determined(claims: seq<Claimed>) {
    forall i, j :: 0 <= i < |claims| && 0 <= j < |claims| && claims[i].first == claims[j].first ==> claims[i] == claims[j]
  }

  predicate Strict(claims: seq<Claimed>) {
    forall i, j :: 0 <= i < j < |claims| ==> claims[i].first < claims[j].first
  }

  lemma {:induction false} UniqueIsStrict(claims: seq<Claimed>)
    requires Nondecreasing(claims) && Determined(claims)
    ensures Strict(Unique(claims))
    ensures forall c :: c in Unique(claims) <==> c in claims
    ensures claims != [] ==> Unique(claims) != [] && Unique(claims)[0] == claims[0]
  {
    if |claims| >= 2 {
      var rest := claims[1..];
      UniqueIsStrict(rest);
      assert claims == [claims[0]] + rest;
      if claims[0] != claims[1] {
        forall i | 0 <= i < |Unique(rest)|
          ensures claims[0].first < Unique(rest)[i].first
        {
          assert Unique(rest)[i] in rest;
        }
      }
    }
  }

  lemma {:induction false} StrictTail(a: seq<Claimed>, c: Claimed)
    requires Strict(a) && a != []
    ensures Strict(a[1..]) && (c in a[1..] <==> c in a && c != a[0]) && (c in a ==> a[0].first <= c.first)
  {
    assert a == [a[0]] + a[1..];
  }

  /** A strictly ascending list is determined by what it holds. */
  lemma {:induction false} StrictIsUnique(a: seq<Claimed>, b: seq<Claimed>)
    requires Strict(a) && Strict(b) && forall c :: c in a <==> c in b
    ensures a == b
  {
    if a != [] {
      assert a[0] in b;
    }
    if b != [] {
      assert b[0] in a;
    }
    if a != [] {
      StrictTail(a, b[0]);
      StrictTail(b, a[0]);
      assert a[0] in b && b[0] in a;
      assert a[0] == b[0];
      forall c
        ensures c in a[1..] <==> c in b[1..]
      {
        StrictTail(a, c);
        StrictTail(b, c);
      }
      hide Strict;
      StrictIsUnique(a[1..], b[1..]);
      assert a == [a[0]] + a[1..] && b == [b[0]] + b[1..];
    }
  }

  // ----- what is claimed -----

  /** A maximal run of digits. */
  predicate MaximalRun(form: string, c: Claimed) {
    c.first < c.last <= |form| && AllDigits(form[c.first..c.last]) &&
    (c.first > 0 ==> !Digit(form[c.first - 1])) && (c.last < |form| ==> !Digit(form[c.last]))
  }

  /** A claim as the documentation states it: behind a marker at a boundary, equal to the value. */
  ghost predicate Documented(form: string, run: Run, c: Claimed) {
    exists p: nat, m :: DocumentedAt(form, run, c, p, m)
  }

  ghost predicate DocumentedAt(form: string, run: Run, c: Claimed, p: nat, m: string) {
    m in run.markers && Boundary(form, p) && Opens(form, p, m) == Some(c) && form[c.first..c.last] == run.value
  }

  /** The documented rule, told from the text: the marker at `p`, at the start of the form or behind a byte that is
      neither letter nor digit; then all the digits, the declared value; then the end or a byte that is no letter. */
  predicate DocumentedText(form: string, run: Run, c: Claimed, p: nat, m: string) {
    && m in run.markers && p + |m| == c.first < c.last <= |form| && form[p..c.first] == m
    && (p > 0 ==> !Letter(form[p - 1]) && !Numeral(form[p - 1]))
    && (forall i :: c.first <= i < c.last ==> Numeral(form[i])) && (c.last < |form| ==> !Letter(form[c.last]) && !Numeral(form[c.last]))
    && form[c.first..c.last] == run.value
  }

  lemma {:induction false} DocumentedIsText(form: string, run: Run, c: Claimed, p: nat, m: string)
    ensures DocumentedAt(form, run, c, p, m) <==> DocumentedText(form, run, c, p, m)
  {
    hide Opens;
    if DocumentedAt(form, run, c, p, m) {
      OpensBounds(form, p, m, c);
    }
    if p + |m| == c.first < c.last <= |form| {
      OpensIs(form, p, m, c);
    }
  }

  lemma {:induction false} OpensBounds(form: string, p: nat, m: string, c: Claimed)
    requires Opens(form, p, m) == Some(c)
    ensures p + |m| == c.first < c.last <= |form|
  {
  }

  lemma {:induction false} OpensIs(form: string, p: nat, m: string, c: Claimed)
    requires p + |m| == c.first < c.last <= |form|
    ensures Opens(form, p, m) == Some(c) <==>
      && form[p..c.first] == m && (forall i :: c.first <= i < c.last ==> Numeral(form[i]))
      && (c.last < |form| ==> !Letter(form[c.last]) && !Numeral(form[c.last]))
  {
    hide DigitsEnd;
    StartsIs(form, p, m);
    if Opens(form, p, m) == Some(c) {
      forall i | c.first <= i < c.last
        ensures Numeral(form[i])
      {
        DigitsInside(form, c.first, i);
      }
    }
    if forall i :: c.first <= i < c.last ==> Numeral(form[i]) {
      if c.last < |form| ==> !Letter(form[c.last]) && !Numeral(form[c.last]) {
        DigitsEndExact(form, c.first, c.last);
      }
    }
  }

  lemma {:induction false} StartsIs(form: string, p: nat, m: string)
    requires p + |m| <= |form|
    ensures StartsAt(form, p, m) <==> form[p..p + |m|] == m
  {
    assert form[p..][..|m|] == form[p..p + |m|];
  }

  lemma {:induction false} OpensMaximal(form: string, p: nat, m: string)
    requires GoodMarker(m) && Opens(form, p, m).Some?
    ensures MaximalRun(form, Opens(form, p, m).value)
  {
    assert form[p..][|m| - 1] == m[|m| - 1];
  }

  lemma {:induction false} FirstOpenIs(form: string, pos: nat, markers: seq<string>) returns (m: string)
    requires FirstOpen(form, pos, markers).Some?
    ensures m in markers && FirstOpen(form, pos, markers) == Opens(form, pos, m)
  {
    if Opens(form, pos, markers[0]).Some? {
      m := markers[0];
    } else {
      m := FirstOpenIs(form, pos, markers[1..]);
    }
  }

  lemma {:induction false} FirstOpenExists(form: string, pos: nat, markers: seq<string>, m: string)
    requires m in markers && Opens(form, pos, m).Some?
    ensures FirstOpen(form, pos, markers).Some?
  {
    if Opens(form, pos, markers[0]).None? {
      FirstOpenExists(form, pos, markers[1..], m);
    }
  }

  lemma {:induction false} RunSound(form: string, pos: nat, run: Run, c: Claimed)
    requires c in RunClaims(form, pos, run)
    ensures Documented(form, run, c)
    decreases |form| - pos
  {
    hide Opens, FirstOpen, Boundary, Valued;
    if !Boundary(form, pos) || FirstOpen(form, pos, run.markers).None? {
      RunSound(form, pos + 1, run, c);
    } else {
      var d := FirstOpen(form, pos, run.markers).value;
      if c in RunClaims(form, d.last, run) {
        RunSound(form, d.last, run, c);
      } else {
        ValuedIs(form, d, run.value, c);
        var m := FirstOpenIs(form, pos, run.markers);
        assert DocumentedAt(form, run, c, pos, m);
      }
    }
  }

  lemma {:induction false} ValuedIs(form: string, d: Claimed, value: string, c: Claimed)
    requires d.first <= d.last <= |form| && c in Valued(form, d, value)
    ensures c == d && form[c.first..c.last] == value
  {
  }

  /** A marker without any digit. */
  predicate DigitFree(run: Run) {
    forall i :: 0 <= i < |run.markers| ==> NoDigit(run.markers[i])
  }

  predicate NoDigit(m: string) {
    m != "" && forall i :: 0 <= i < |m| ==> !Digit(m[i])
  }

  /** Two digit-free markers whose stretches overlap open the same run. */
  lemma {:induction false} SameRun(form: string, q: nat, n: string, p: nat, m: string)
    requires q <= p && NoDigit(m) && NoDigit(n) && Opens(form, q, n).Some? && Opens(form, p, m).Some?
    requires Boundary(form, p) && p < Opens(form, q, n).value.last
    ensures Opens(form, q, n) == Opens(form, p, m)
  {
    var r, c := Opens(form, q, n).value, Opens(form, p, m).value;
    forall i | q <= i < r.first
      ensures !Digit(form[i])
    {
      assert form[q..][i - q] == n[i - q];
    }
    forall i | p <= i < c.first
      ensures !Digit(form[i])
    {
      assert form[p..][i - p] == m[i - p];
    }
    forall i | r.first <= i < r.last
      ensures Digit(form[i])
    {
      assert form[r.first..r.last][i - r.first] == form[i];
    }
    assert form[c.first..c.last][0] == form[c.first];
    assert p <= r.first;
    assert p < r.first;
    assert r.first == c.first;
  }

  lemma {:induction false} RunComplete(form: string, pos: nat, run: Run, c: Claimed, p: nat, m: string)
    requires DigitFree(run) && DocumentedAt(form, run, c, p, m) && pos <= p
    ensures c in RunClaims(form, pos, run)
    decreases |form| - pos
  {
    hide Opens, FirstOpen, Boundary, NoDigit;
    var found := FirstOpen(form, pos, run.markers);
    if pos == p {
      FirstOpenExists(form, pos, run.markers, m);
    }
    if Boundary(form, pos) && found.Some? && p < found.value.last {
      var n := FirstOpenIs(form, pos, run.markers);
      assert NoDigit(m) && NoDigit(n);
      SameRun(form, pos, n, p, m);
    } else if Boundary(form, pos) && found.Some? {
      RunComplete(form, found.value.last, run, c, p, m);
    } else {
      RunComplete(form, pos + 1, run, c, p, m);
    }
  }

  lemma {:induction false} InAllClaims(form: string, runs: seq<Run>, c: Claimed)
    ensures c in AllClaims(form, runs) <==> exists i :: 0 <= i < |runs| && c in RunClaims(form, 0, runs[i])
  {
    hide RunClaims;
    if runs != [] {
      InAllClaims(form, runs[1..], c);
      assert runs == [runs[0]] + runs[1..];
      if c in RunClaims(form, 0, runs[0]) {
        assert c in RunClaims(form, 0, runs[0]);
      } else if c in AllClaims(form, runs[1..]) {
        var i :| 0 <= i < |runs| - 1 && c in RunClaims(form, 0, runs[1..][i]);
        assert c in RunClaims(form, 0, runs[i + 1]);
      }
    }
  }

  /** Whatever is claimed is a maximal digit run, so two claims are the same or do not meet. */
  lemma {:induction false} ClaimsAreMaximal(form: string, runs: seq<Run>, c: Claimed)
    requires GoodRuns(runs) && c in AllClaims(form, runs)
    ensures MaximalRun(form, c)
  {
    hide MaximalRun, Opens, RunClaims;
    InAllClaims(form, runs, c);
    var i :| 0 <= i < |runs| && c in RunClaims(form, 0, runs[i]);
    RunSound(form, 0, runs[i], c);
    var p: nat, m :| DocumentedAt(form, runs[i], c, p, m);
    assert GoodRun(runs[i]);
    OpensMaximal(form, p, m);
  }

  lemma {:induction false} MaximalDetermined(form: string, c: Claimed, d: Claimed)
    requires MaximalRun(form, c) && MaximalRun(form, d) && c.first <= d.first
    ensures c == d || c.last < d.first
  {
    if d.first <= c.last {
      DigitsEndExact(form, d.first, d.last);
      forall k | c.first <= k < c.last
        ensures Digit(form[k])
      {
        assert form[c.first..c.last][k - c.first] == form[k];
      }
      assert form[d.first..d.last][0] == form[d.first];
      assert d.first < c.last;
      assert d.first == c.first;
      DigitsEndExact(form, c.first, c.last);
    }
  }

  /** Ascending and apart: at least one byte stands between two claims. */
  predicate Apart(claims: seq<Claimed>, n: nat) {
    (forall i :: 0 <= i < |claims| ==> claims[i].first < claims[i].last <= n) &&
    forall i, j :: 0 <= i < j < |claims| ==> claims[i].last < claims[j].first
  }

  lemma {:induction false} ClaimsHold(form: string, runs: seq<Run>)
    requires GoodRuns(runs)
    ensures Strict(Claims(form, runs)) && forall c :: c in Claims(form, runs) <==> c in AllClaims(form, runs)
  {
    hide AllClaims, MaximalRun, Sorted, Unique, Strict, GoodRuns;
    var all := AllClaims(form, runs);
    SortedSorts(all);
    var sorted := Sorted(all);
    forall c
      ensures c in sorted <==> c in all
    {
      assert c in multiset(sorted) <==> c in multiset(all);
    }
    forall i, j | 0 <= i < |sorted| && 0 <= j < |sorted| && sorted[i].first == sorted[j].first
      ensures sorted[i] == sorted[j]
    {
      ClaimsAreMaximal(form, runs, sorted[i]);
      ClaimsAreMaximal(form, runs, sorted[j]);
      MaximalDetermined(form, sorted[i], sorted[j]);
      MaximalDetermined(form, sorted[j], sorted[i]);
      MaximalNotEmpty(form, sorted[i]);
      MaximalNotEmpty(form, sorted[j]);
    }
    UniqueIsStrict(sorted);
  }

  lemma {:induction false} MaximalNotEmpty(form: string, c: Claimed)
    requires MaximalRun(form, c)
    ensures c.first < c.last <= |form|
  {
  }

  /** The claims: strictly ascending, apart, each a maximal digit run equal to a declared value behind one
      of its markers. */
  lemma {:induction false} ClaimsSound(form: string, runs: seq<Run>)
    requires GoodRuns(runs)
    ensures Apart(Claims(form, runs), |form|)
    ensures forall c :: c in Claims(form, runs) ==> MaximalRun(form, c) && exists i :: 0 <= i < |runs| && Documented(form, runs[i], c)
  {
    hide AllClaims, MaximalRun, GoodRuns, Claims, Documented, RunClaims;
    var claims := Claims(form, runs);
    ClaimsHold(form, runs);
    forall c | c in claims
      ensures MaximalRun(form, c) && exists i :: 0 <= i < |runs| && Documented(form, runs[i], c)
    {
      ClaimsAreMaximal(form, runs, c);
      InAllClaims(form, runs, c);
      var i :| 0 <= i < |runs| && c in RunClaims(form, 0, runs[i]);
      RunSound(form, 0, runs[i], c);
    }
    forall i | 0 <= i < |claims|
      ensures claims[i].first < claims[i].last <= |form|
    {
      MaximalNotEmpty(form, claims[i]);
    }
    forall i, j | 0 <= i < j < |claims|
      ensures claims[i].last < claims[j].first
    {
      MaximalDetermined(form, claims[i], claims[j]);
    }
  }

  /** With digit-free markers every documented run is claimed, and nothing else. */
  lemma {:induction false} ClaimsComplete(form: string, runs: seq<Run>, c: Claimed)
    requires GoodRuns(runs) && forall i :: 0 <= i < |runs| ==> DigitFree(runs[i])
    ensures c in Claims(form, runs) <==> exists i :: 0 <= i < |runs| && Documented(form, runs[i], c)
  {
    hide AllClaims, MaximalRun, GoodRuns, Claims, RunClaims, DigitFree, DocumentedAt;
    ClaimsHold(form, runs);
    ClaimsSound(form, runs);
    forall i | 0 <= i < |runs| && Documented(form, runs[i], c)
      ensures c in Claims(form, runs)
    {
      var p: nat, m :| DocumentedAt(form, runs[i], c, p, m);
      RunComplete(form, 0, runs[i], c, p, m);
      InAllClaims(form, runs, c);
    }
  }

  /** A marker that holds a digit can shadow another: the run behind `a=` is documented, not claimed. */
  lemma {:induction false} DigitMarkersShadow()
    ensures var run := Run(["a=1 b=", "a="], "1"); var c := Claimed(2, 3);
      GoodRun(run) && Documented("a=1 b=5", run, c) && c !in Claims("a=1 b=5", [run])
  {
    var form, run, c := "a=1 b=5", Run(["a=1 b=", "a="], "1"), Claimed(2, 3);
    DigitsEndExact(form, 2, 3);
    DigitsEndExact(form, 6, 7);
    assert form[0..] == form && form[2..3] == "1" && form[6..7] == "5";
    assert Opens(form, 0, "a=") == Some(c) && Opens(form, 0, "a=1 b=") == Some(Claimed(6, 7));
    assert DocumentedAt(form, run, c, 0, "a=");
    assert RunClaims(form, 7, run) == [];
    assert FirstOpen(form, 0, run.markers) == Some(Claimed(6, 7));
    assert Valued(form, Claimed(6, 7), "1") == [];
    assert RunClaims(form, 0, run) == [];
    var runs := [run];
    assert runs[1..] == [] && AllClaims(form, runs) == [];
  }

  // ----- one marker: exactly when every documented run is claimed -----

  /** A second occurrence of the marker starts at `j` inside the first, behind a byte that is neither a letter
      nor a digit, and holds the digits the first one opens. */
  predicate ShadowsAt(m: string, j: nat) {
    1 <= j <= |m| && !IsAlpha(m[j - 1]) && !Digit(m[j - 1]) &&
    var t := m[..j] + m;
    m <= t && Digit(t[|m|]) &&
    var e := DigitsEnd(t, |m|);
    e < |t| && !IsAlpha(t[e])
  }

  /** A marker whose occurrences can overlap so that the digits of one are bytes of the next. */
  predicate ShadowsItself(m: string) {
    exists j :: 1 <= j <= |m| && ShadowsAt(m, j)
  }

  function OneMarker(m: string, value: string): Run {
    Run([m], value)
  }

  lemma {:induction false} OnlyOpening(form: string, pos: nat, m: string)
    ensures FirstOpen(form, pos, [m]) == Opens(form, pos, m)
  {
    hide Opens;
    assert [m][1..] == [];
    if Opens(form, pos, m).None? {
      assert FirstOpen(form, pos, [m][1..]) == None;
    }
  }

  lemma {:induction false} StandsBytes(form: string, q: nat, m: string, i: nat)
    requires StartsAt(form, q, m) && i < |m|
    ensures q + |m| <= |form| && form[q + i] == m[i]
  {
    assert form[q..][i] == m[i];
  }

  /** What an opening's digit run looks like from outside. */
  lemma {:induction false} OpenedRun(form: string, q: nat, m: string)
    requires Opens(form, q, m).Some?
    ensures var c := Opens(form, q, m).value;
      && StartsAt(form, q, m) && c.first == q + |m| < c.last <= |form| && c.last == DigitsEnd(form, c.first)
      && (c.last < |form| ==> !Digit(form[c.last]) && !IsAlpha(form[c.last]))
      && forall i :: c.first <= i < c.last ==> Digit(form[i])
  {
    var c := Opens(form, q, m).value;
    forall i | c.first <= i < c.last
      ensures Digit(form[i])
    {
      DigitsInside(form, c.first, i);
    }
  }

  /** An opening the scan takes over a later one: the marker shadows itself. */
  lemma {:induction false} OverlapShadows(form: string, q: nat, p: nat, m: string)
    requires GoodMarker(m) && q < p && Boundary(form, p) && Opens(form, q, m).Some? && Opens(form, p, m).Some?
    requires p < Opens(form, q, m).value.last
    ensures ShadowsItself(m)
  {
    OpenedRun(form, q, m);
    OpenedRun(form, p, m);
    var last := Opens(form, q, m).value.last;
    hide Opens, ShadowsAt, StartsAt;
    assert p <= q + |m|;
    StandsBytes(form, p, m, |m| - 1);
    assert last < p + |m|;
    OverlapAt(form, q, p, m, last);
  }

  lemma {:induction false} OverlapAt(form: string, q: nat, p: nat, m: string, last: nat)
    requires q < p <= q + |m| < last < p + |m| <= |form| && Boundary(form, p) && StartsAt(form, q, m) && StartsAt(form, p, m)
    requires (forall i :: q + |m| <= i < last ==> Digit(form[i])) && !Digit(form[last]) && !IsAlpha(form[last])
    ensures ShadowsAt(m, p - q)
  {
    hide StartsAt;
    StandsBytes(form, q, m, p - q - 1);
    OverlapText(form, q, p, m);
    OverlapDigits(form, q, m, m[..p - q] + m, last);
  }

  lemma {:induction false} OverlapText(form: string, q: nat, p: nat, m: string)
    requires q < p <= q + |m| && StartsAt(form, q, m) && StartsAt(form, p, m)
    ensures p + |m| <= |form| && form[q..p + |m|] == m[..p - q] + m && m <= m[..p - q] + m
  {
    var t := m[..p - q] + m;
    forall i | 0 <= i < |t|
      ensures form[q + i] == t[i]
    {
      StandsBytes(form, q, m, if i < |m| then i else 0);
      if i >= p - q {
        StandsBytes(form, p, m, i - (p - q));
      }
    }
    forall i | 0 <= i < |m|
      ensures t[i] == m[i]
    {
      StandsBytes(form, q, m, i);
    }
    assert t[..|m|] == m;
  }

  lemma {:induction false} OverlapDigits(form: string, q: nat, m: string, t: string, last: nat)
    requires q + |t| <= |form| && form[q..q + |t|] == t && q + |m| < last < q + |t|
    requires (forall i :: q + |m| <= i < last ==> Digit(form[i])) && !Digit(form[last])
    ensures Digit(t[|m|]) && DigitsEnd(t, |m|) == last - q && t[last - q] == form[last]
  {
    forall i | 0 <= i < |t|
      ensures t[i] == form[q + i]
    {
      assert form[q..q + |t|][i] == form[q + i];
    }
    DigitsEndExact(t, |m|, last - q);
  }

  lemma {:induction false} OneMarkerClaims(form: string, pos: nat, m: string, value: string, c: Claimed, p: nat)
    requires GoodMarker(m) && !ShadowsItself(m) && pos <= p
    requires DocumentedAt(form, OneMarker(m, value), c, p, m)
    ensures c in RunClaims(form, pos, OneMarker(m, value))
    decreases |form| - pos
  {
    hide Opens, Boundary, ShadowsItself, GoodMarker;
    OnlyOpening(form, pos, m);
    var found := Opens(form, pos, m);
    if Boundary(form, pos) && found.Some? && pos < p < found.value.last {
      OverlapShadows(form, pos, p, m);
    } else if Boundary(form, pos) && found.Some? && pos < p {
      OneMarkerClaims(form, found.value.last, m, value, c, p);
    } else if pos < p {
      OneMarkerClaims(form, pos + 1, m, value, c, p);
    }
  }

  /** A claim made from `pos` on lies behind a marker at or after `pos`. */
  lemma {:induction false} ClaimedLater(form: string, pos: nat, m: string, value: string, c: Claimed)
    requires c in RunClaims(form, pos, OneMarker(m, value))
    ensures c.first >= pos + |m|
    decreases |form| - pos
  {
    hide Boundary, Valued;
    OnlyOpening(form, pos, m);
    if !Boundary(form, pos) || Opens(form, pos, m).None? {
      ClaimedLater(form, pos + 1, m, value, c);
    } else {
      var d := Opens(form, pos, m).value;
      if c in RunClaims(form, d.last, OneMarker(m, value)) {
        ClaimedLater(form, d.last, m, value, c);
      } else {
        ValuedIs(form, d, value, c);
      }
    }
  }

  /** The form that shows it: the second occurrence followed by a zero. */
  /** Digits that end inside a text end there in every longer text. */
  lemma {:induction false} DigitsWithin(t: string, more: string, pos: nat)
    requires pos <= |t| && DigitsEnd(t, pos) < |t|
    ensures DigitsEnd(t + more, pos) == DigitsEnd(t, pos)
  {
    var e := DigitsEnd(t, pos);
    hide DigitsEnd;
    assert (t + more)[pos..e] == t[pos..e];
    DigitsEndExact(t + more, pos, e);
  }

  lemma {:induction false} ShadowForm(m: string, j: nat)
    requires GoodMarker(m) && ShadowsAt(m, j)
    ensures var t := m[..j] + m; var form := t + "0";
      && Opens(form, 0, m) == Some(Claimed(|m|, DigitsEnd(t, |m|))) && DigitsEnd(t, |m|) > |m|
      && Opens(form, j, m) == Some(Claimed(|t|, |t| + 1)) && Boundary(form, j) && form[|t|..|t| + 1] == "0"
  {
    var t := m[..j] + m;
    var form, e := t + "0", DigitsEnd(t, |m|);
    hide DigitsEnd;
    assert form[0..] == form && m <= form;
    DigitsWithin(t, "0", |m|);
    assert form[j..] == m + "0";
    assert form[|t|..|t| + 1] == "0";
    DigitsEndExact(form, |t|, |t| + 1);
    assert form[j - 1] == m[j - 1];
  }

  lemma {:induction false} ClaimsOfOne(form: string, run: Run, c: Claimed)
    requires GoodRun(run)
    ensures c in Claims(form, [run]) <==> c in RunClaims(form, 0, run)
  {
    hide RunClaims, GoodRun, AllClaims, Claims;
    ClaimsHold(form, [run]);
    InAllClaims(form, [run], c);
    if c in RunClaims(form, 0, run) {
      assert c in RunClaims(form, 0, [run][0]);
    }
  }

  /** For a run with one marker every documented run of every form is claimed if and only if the marker does
      not shadow itself; when it does, here is a form and a documented run that is not claimed. */
  lemma {:induction false} OneMarkerExactly(m: string) returns (form: string, c: Claimed)
    requires GoodMarker(m)
    ensures !ShadowsItself(m) ==> forall f: string, v: string, d: Claimed ::
      Documented(f, OneMarker(m, v), d) ==> d in Claims(f, [OneMarker(m, v)])
    ensures ShadowsItself(m) ==> Documented(form, OneMarker(m, "0"), c) && c !in Claims(form, [OneMarker(m, "0")])
  {
    form, c := "", Claimed(0, 0);
    if ShadowsItself(m) {
      var j :| 1 <= j <= |m| && ShadowsAt(m, j);
      hide Opens, Boundary, RunClaims, ShadowsItself, ShadowsAt, Claims;
      form, c := ShadowWitness(m, j);
      ClaimsOfOne(form, OneMarker(m, "0"), c);
    } else {
      hide Opens, Boundary, RunClaims, ShadowsItself, Claims;
      forall f: string, v: string, d: Claimed | Documented(f, OneMarker(m, v), d)
        ensures d in Claims(f, [OneMarker(m, v)])
      {
        var p: nat, n :| DocumentedAt(f, OneMarker(m, v), d, p, n);
        assert n == m;
        OneMarkerClaims(f, 0, m, v, d, p);
        ClaimsOfOne(f, OneMarker(m, v), d);
      }
    }
  }

  /** A marker shadows itself only with a digit in it, but not every digit does that. */
  lemma {:induction false} ShadowsNeedDigits()
    ensures forall m :: ShadowsItself(m) ==> !NoDigit(m)
    ensures ShadowsItself("1=") && !NoDigit("a1=") && !ShadowsItself("a1=")
  {
    forall m, j | 1 <= j <= |m| && ShadowsAt(m, j)
      ensures !NoDigit(m)
    {
      var t := m[..j] + m;
      assert t[|m|] == m[|m| - j];
    }
    DigitsEndExact("1=1=", 2, 3);
    assert "1="[..2] + "1=" == "1=1=";
    assert ShadowsAt("1=", 2);
    assert !ShadowsAt("a1=", 1) && !ShadowsAt("a1=", 2);
    var t := "a1="[..3] + "a1=";
    assert t[3] == 'a';
  }

  lemma {:induction false} ShadowWitness(m: string, j: nat) returns (form: string, c: Claimed)
    requires GoodMarker(m) && ShadowsAt(m, j)
    ensures Documented(form, OneMarker(m, "0"), c) && c !in RunClaims(form, 0, OneMarker(m, "0"))
  {
    var t := m[..j] + m;
    var run, e := OneMarker(m, "0"), DigitsEnd(t, |m|);
    form, c := t + "0", Claimed(|t|, |t| + 1);
    ShadowForm(m, j);
    OnlyOpening(form, 0, m);
    assert Boundary(form, 0);
    hide Opens, ShadowsAt, Boundary, GoodMarker;
    assert DocumentedAt(form, run, c, j, m);
    if c in RunClaims(form, 0, run) {
      if c in RunClaims(form, e, run) {
        ClaimedLater(form, e, m, "0", c);
      } else {
        ValuedIs(form, Claimed(|m|, e), "0", c);
      }
    }
  }

  /** Marker order matters when markers hold digits: the two orders of one marker set claim differently. */
  lemma {:induction false} MarkerOrderMatters()
    ensures var form, c := "a=1 b=5", Claimed(2, 3);
      c !in Claims(form, [Run(["a=1 b=", "a="], "1")]) && c in Claims(form, [Run(["a=", "a=1 b="], "1")])
  {
    hide Claims, RunClaims;
    DigitMarkersShadow();
    ShortMarkerFirst();
    ClaimsOfOne("a=1 b=5", Run(["a=", "a=1 b="], "1"), Claimed(2, 3));
  }

  lemma {:induction false} ShortMarkerFirst()
    ensures var run := Run(["a=", "a=1 b="], "1"); GoodRun(run) && Claimed(2, 3) in RunClaims("a=1 b=5", 0, run)
  {
    hide DigitsEnd;
    var form, run, c := "a=1 b=5", Run(["a=", "a=1 b="], "1"), Claimed(2, 3);
    DigitsEndExact(form, 2, 3);
    assert form[0..] == form && form[2..3] == "1";
    assert Opens(form, 0, "a=") == Some(c);
    assert FirstOpen(form, 0, run.markers) == Some(c);
  }

  /** It does not matter without digits. */
  lemma {:induction false} MarkerOrderIrrelevant(form: string, run: Run, other: Run)
    requires GoodRun(run) && GoodRun(other) && DigitFree(run) && DigitFree(other)
    requires run.value == other.value && forall m :: m in run.markers <==> m in other.markers
    ensures Claims(form, [run]) == Claims(form, [other])
  {
    hide Claims, DigitFree, GoodRun, DocumentedAt;
    ClaimsHold(form, [run]);
    ClaimsHold(form, [other]);
    forall c
      ensures c in Claims(form, [run]) <==> c in Claims(form, [other])
    {
      ClaimsComplete(form, [run], c);
      ClaimsComplete(form, [other], c);
      assert [run][0] == run && [other][0] == other;
      DocumentedAlike(form, run, other, c);
    }
    StrictIsUnique(Claims(form, [run]), Claims(form, [other]));
  }

  lemma {:induction false} DocumentedAlike(form: string, run: Run, other: Run, c: Claimed)
    requires run.value == other.value && forall m :: m in run.markers <==> m in other.markers
    ensures Documented(form, run, c) <==> Documented(form, other, c)
  {
    hide Opens, Boundary;
    if p: nat, m :| DocumentedAt(form, run, c, p, m) {
      assert DocumentedAt(form, other, c, p, m);
    }
    if p: nat, m :| DocumentedAt(form, other, c, p, m) {
      assert DocumentedAt(form, run, c, p, m);
    }
  }

  // ----- any markers: exactly when a documented run is lost -----

  /** A step of the scan: where a marker stood and the run it opened, whatever its value. */
  datatype Taken = Taken(at: nat, run: Claimed)

  function TakenFrom(form: string, pos: nat, markers: seq<string>): seq<Taken>
    decreases |form| - pos
  {
    if pos >= |form| then []
    else if !Boundary(form, pos) then TakenFrom(form, pos + 1, markers)
    else
      match FirstOpen(form, pos, markers)
      case None => TakenFrom(form, pos + 1, markers)
      case Some(c) => [Taken(pos, c)] + TakenFrom(form, c.last, markers)
  }

  /** A run the scan took stands over position `p`. */
  predicate Covers(t: Taken, p: nat) {
    t.at <= p < t.run.last
  }

  /** Every step from `pos` on starts there or later, and begins past the end of the one before it. */
  lemma {:induction false} TakenApart(form: string, pos: nat, markers: seq<string>, s: Taken, t: Taken, p: nat)
    requires s in TakenFrom(form, pos, markers) && t in TakenFrom(form, pos, markers) && Covers(s, p) && Covers(t, p)
    ensures s == t
    decreases |form| - pos
  {
    hide Boundary, FirstOpen;
    if !Boundary(form, pos) || FirstOpen(form, pos, markers).None? {
      TakenApart(form, pos + 1, markers, s, t, p);
    } else {
      var c := FirstOpen(form, pos, markers).value;
      var rest := TakenFrom(form, c.last, markers);
      if s in rest {
        TakenLater(form, c.last, markers, s);
      }
      if t in rest {
        TakenLater(form, c.last, markers, t);
      }
      if s in rest && t in rest {
        TakenApart(form, c.last, markers, s, t, p);
      }
    }
  }

  lemma {:induction false} TakenLater(form: string, pos: nat, markers: seq<string>, t: Taken)
    requires t in TakenFrom(form, pos, markers)
    ensures t.at >= pos && t.at < t.run.last && Boundary(form, t.at) && FirstOpen(form, t.at, markers) == Some(t.run)
    decreases |form| - pos
  {
    hide Boundary, FirstOpen;
    if !Boundary(form, pos) || FirstOpen(form, pos, markers).None? {
      TakenLater(form, pos + 1, markers, t);
    } else {
      var c := FirstOpen(form, pos, markers).value;
      if t in TakenFrom(form, c.last, markers) {
        TakenLater(form, c.last, markers, t);
      }
    }
  }

  /** Every place where a marker opens a run is covered by a step. */
  lemma {:induction false} OpeningCovered(form: string, pos: nat, markers: seq<string>, p: nat) returns (t: Taken)
    requires pos <= p < |form| && Boundary(form, p) && FirstOpen(form, p, markers).Some?
    ensures t in TakenFrom(form, pos, markers) && Covers(t, p)
    decreases |form| - pos
  {
    hide Boundary, FirstOpen;
    var found := FirstOpen(form, pos, markers);
    if Boundary(form, pos) && found.Some? {
      if p < found.value.last {
        t := Taken(pos, found.value);
      } else {
        t := OpeningCovered(form, found.value.last, markers, p);
      }
    } else {
      t := OpeningCovered(form, pos + 1, markers, p);
    }
  }

  /** What is claimed is what the scan took and has the value. */
  lemma {:induction false} ClaimedIsTaken(form: string, pos: nat, run: Run, c: Claimed)
    requires c.first <= c.last <= |form|
    ensures c in RunClaims(form, pos, run) <==>
            form[c.first..c.last] == run.value && exists t :: t in TakenFrom(form, pos, run.markers) && t.run == c
    decreases |form| - pos
  {
    hide Boundary, FirstOpen;
    if pos < |form| {
      if !Boundary(form, pos) || FirstOpen(form, pos, run.markers).None? {
        ClaimedIsTaken(form, pos + 1, run, c);
      } else {
        var d := FirstOpen(form, pos, run.markers).value;
        ClaimedIsTaken(form, d.last, run, c);
        TakenCons(Taken(pos, d), TakenFrom(form, d.last, run.markers), c);
      }
    }
  }

  lemma {:induction false} TakenCons(t: Taken, rest: seq<Taken>, c: Claimed)
    ensures (exists u :: u in [t] + rest && u.run == c) <==> t.run == c || exists u :: u in rest && u.run == c
  {
    if t.run == c {
      assert t in [t] + rest;
    }
    if u :| u in rest && u.run == c {
      assert u in [t] + rest;
    }
  }

  /** Some run the scan took stands over the marker at `p` and is not `c`. */
  ghost predicate Shadowed(form: string, run: Run, c: Claimed, p: nat) {
    exists t :: t in TakenFrom(form, 0, run.markers) && Covers(t, p) && t.run != c
  }

  /** A documented run is lost if and only if every marker it stands behind is shadowed by another run the
      scan took. */
  lemma {:induction false} LostExactly(form: string, run: Run, c: Claimed)
    requires GoodRun(run) && Documented(form, run, c)
    ensures c !in Claims(form, [run]) <==> forall p: nat, m :: DocumentedAt(form, run, c, p, m) ==> Shadowed(form, run, c, p)
  {
    hide GoodRun, Claims, RunClaims, Boundary, FirstOpen, TakenFrom, Covers;
    ClaimsOfOne(form, run, c);
    DocumentedInside(form, run, c);
    ClaimedIsTaken(form, 0, run, c);
    if c in RunClaims(form, 0, run) {
      var t :| t in TakenFrom(form, 0, run.markers) && t.run == c;
      TakenStands(form, run, c, t);
    } else {
      forall p: nat, m | DocumentedAt(form, run, c, p, m)
        ensures Shadowed(form, run, c, p)
      {
        FirstOpenExists(form, p, run.markers, m);
        OpensInside(form, p, m);
        var t := OpeningCovered(form, 0, run.markers, p);
        assert t.run != c;
      }
    }
  }

  lemma {:induction false} OpensInside(form: string, p: nat, m: string)
    requires Opens(form, p, m).Some?
    ensures p < |form|
  {
  }

  lemma {:induction false} DocumentedInside(form: string, run: Run, c: Claimed)
    requires Documented(form, run, c)
    ensures c.first <= c.last <= |form| && form[c.first..c.last] == run.value
  {
  }

  /** A run the scan took is not shadowed where it was taken. */
  lemma {:induction false} TakenStands(form: string, run: Run, c: Claimed, t: Taken)
    requires t in TakenFrom(form, 0, run.markers) && t.run == c && c.first <= c.last <= |form| && form[c.first..c.last] == run.value
    ensures exists m :: DocumentedAt(form, run, c, t.at, m) && !Shadowed(form, run, c, t.at)
  {
    hide Boundary, FirstOpen, TakenFrom, Opens;
    TakenLater(form, 0, run.markers, t);
    var m := FirstOpenIs(form, t.at, run.markers);
    assert DocumentedAt(form, run, c, t.at, m);
    forall u | u in TakenFrom(form, 0, run.markers) && Covers(u, t.at)
      ensures u.run == c
    {
      TakenApart(form, 0, run.markers, t, u, t.at);
    }
  }

  /** The order and repetition of the runs do not matter. */
  lemma {:induction false} RunOrderIrrelevant(form: string, runs: seq<Run>, others: seq<Run>)
    requires GoodRuns(runs) && GoodRuns(others) && forall run :: run in runs <==> run in others
    ensures Claims(form, runs) == Claims(form, others)
  {
    hide GoodRuns, AllClaims, Claims, RunClaims, Strict;
    ClaimsHold(form, runs);
    ClaimsHold(form, others);
    forall c
      ensures c in AllClaims(form, runs) <==> c in AllClaims(form, others)
    {
      InAllClaims(form, runs, c);
      InAllClaims(form, others, c);
      SameMembers(form, runs, others, c);
      SameMembers(form, others, runs, c);
    }
    StrictIsUnique(Claims(form, runs), Claims(form, others));
  }

  lemma {:induction false} SameMembers(form: string, runs: seq<Run>, others: seq<Run>, c: Claimed)
    requires forall run :: run in runs <==> run in others
    ensures (exists i :: 0 <= i < |runs| && c in RunClaims(form, 0, runs[i])) ==>
            exists i :: 0 <= i < |others| && c in RunClaims(form, 0, others[i])
  {
    if i :| 0 <= i < |runs| && c in RunClaims(form, 0, runs[i]) {
      assert runs[i] in others;
      var j :| 0 <= j < |others| && others[j] == runs[i];
      assert c in RunClaims(form, 0, others[j]);
    }
  }

  // ----- the loops -----

  /** `claim_at`: the position after the run a marker opens at `pos`, and the claim when the run is the value. */
  method ClaimAt(form: string, pos: nat, run: Run, claims: seq<Claimed>) returns (next: nat, grown: seq<Claimed>)
    requires pos < |form|
    ensures match FirstOpen(form, pos, run.markers)
            case None => next == pos + 1 && grown == claims
            case Some(c) => next == c.last && grown == claims + Valued(form, c, run.value)
  {
    hide DigitsEnd;
    var i := 0;
    while i < |run.markers|
      invariant 0 <= i <= |run.markers|
      invariant FirstOpen(form, pos, run.markers) == FirstOpen(form, pos, run.markers[i..])
    {
      var marker := run.markers[i];
      assert run.markers[i..][1..] == run.markers[i + 1..];
      i := i + 1;
      if !(marker <= form[pos..]) {
        continue;
      }
      var firstDigit := pos + |marker|;
      var end := SkipDigits(form, firstDigit);
      if end == firstDigit || (end < |form| && IsAlpha(form[end])) {
        continue;
      }
      if form[firstDigit..end] == run.value {
        return end, claims + [Claimed(firstDigit, end)];
      }
      return end, claims + [];
    }
    return pos + 1, claims;
  }

  /** A form that holds a claim holds the value. */
  lemma {:induction false} ClaimHoldsValue(form: string, run: Run, c: Claimed)
    requires c in RunClaims(form, 0, run)
    ensures Contains(form, run.value)
  {
    hide RunClaims, Boundary, Opens;
    RunSound(form, 0, run, c);
    var p: nat, m :| DocumentedAt(form, run, c, p, m);
    assert StartsAt(form, c.first, run.value);
  }

  /** A form that does not hold the value holds no claim of it. */
  lemma {:induction false} AbsentValue(form: string, run: Run)
    requires !Contains(form, run.value)
    ensures RunClaims(form, 0, run) == []
  {
    hide RunClaims, Contains;
    if RunClaims(form, 0, run) != [] {
      ClaimHoldsValue(form, run, RunClaims(form, 0, run)[0]);
    }
  }

  /** `find` succeeds. */
  ghost predicate Contains(form: string, text: string) {
    exists i: nat :: StartsAt(form, i, text)
  }

  method FindText(form: string, text: string) returns (found: bool)
    ensures found <==> Contains(form, text)
  {
    var i := 0;
    while i <= |form|
      invariant 0 <= i <= |form| + 1
      invariant forall j: nat :: j < i ==> !StartsAt(form, j, text)
    {
      if text <= form[i..] {
        assert StartsAt(form, i, text);
        return true;
      }
      i := i + 1;
    }
    return false;
  }

  /** `claim_declared_runs`. */
  method ClaimDeclaredRuns(form: string, runs: seq<Run>) returns (claims: seq<Claimed>)
    ensures claims == Claims(form, runs)
  {
    hide RunClaims, Contains, Unique, Sorted, FirstOpen, Valued;
    claims := [];
    var i := 0;
    while i < |runs|
      invariant 0 <= i <= |runs|
      invariant claims + AllClaims(form, runs[i..]) == AllClaims(form, runs)
    {
      assert runs[i..][1..] == runs[i + 1..];
      var run := runs[i];
      var found := FindText(form, run.value);
      if found {
        claims := ScanRun(form, run, claims);
      } else {
        AbsentValue(form, run);
      }
      i := i + 1;
    }
    assert claims + [] == claims;
    claims := Unique(Sorted(claims));
  }

  /** The position loop of one run. */
  method ScanRun(form: string, run: Run, before: seq<Claimed>) returns (claims: seq<Claimed>)
    ensures claims == before + RunClaims(form, 0, run)
  {
    hide FirstOpen, Valued;
    claims := before;
    var pos := 0;
    while pos < |form|
      invariant 0 <= pos <= |form|
      invariant claims + RunClaims(form, pos, run) == before + RunClaims(form, 0, run)
    {
      if pos == 0 || (!IsAlpha(form[pos - 1]) && !Digit(form[pos - 1])) {
        pos, claims := ClaimAt(form, pos, run, claims);
      } else {
        pos := pos + 1;
      }
    }
    assert claims + [] == claims;
  }

  // ----- reading the wildcard over the claims -----

  function AsSpans(claims: seq<Claimed>): (spans: seq<Span>)
    ensures |spans| == |claims|
    ensures forall i :: 0 <= i < |claims| ==> spans[i] == Span(WildcardMask, claims[i].first, claims[i].last)
  {
    if claims == [] then [] else [Span(WildcardMask, claims[0].first, claims[0].last)] + AsSpans(claims[1..])
  }

  /** The claims of a window. */
  function Within(claims: seq<Claimed>, first: nat, last: nat): (kept: seq<Claimed>)
    ensures forall c :: c in kept <==> c in claims && first <= c.first && c.last <= last
  {
    if claims == [] then []
    else
      assert claims == [claims[0]] + claims[1..];
      var rest := Within(claims[1..], first, last);
      if claims[0].first < first || claims[0].last > last then rest else [claims[0]] + rest
  }

  lemma {:induction false} ApartTail(claims: seq<Claimed>, n: nat)
    requires Apart(claims, n) && claims != []
    ensures Apart(claims[1..], n) && (|claims| > 1 ==> claims[0].last < claims[1].first)
    ensures forall c :: c in claims[1..] ==> claims[0].last < c.first
  {
  }

  lemma {:induction false} ApartCons(c: Claimed, rest: seq<Claimed>, n: nat)
    requires c.first < c.last <= n && Apart(rest, n) && forall d :: d in rest ==> c.last < d.first
    ensures Apart([c] + rest, n)
  {
    var all := [c] + rest;
    assert forall i :: 0 < i < |all| ==> all[i] == rest[i - 1] && all[i] in rest;
  }

  lemma {:induction false} ApartHead(claims: seq<Claimed>, n: nat)
    requires Apart(claims, n) && claims != []
    ensures claims[0].first < claims[0].last <= n
  {
  }

  lemma {:induction false} WithinApart(claims: seq<Claimed>, n: nat, first: nat, last: nat)
    requires Apart(claims, n)
    ensures Apart(Within(claims, first, last), last)
  {
    if claims == [] {
      assert Apart([], last);
    } else {
      hide Apart;
      ApartTail(claims, n);
      ApartHead(claims, n);
      WithinApart(claims[1..], n, first, last);
      if first <= claims[0].first && claims[0].last <= last {
        ApartCons(claims[0], Within(claims[1..], first, last), last);
      }
    }
  }

  /** Replacing never steps backwards. */
  lemma {:induction false} ApartPlaced(claims: seq<Claimed>, at: nat, n: nat)
    requires Apart(claims, n) && (claims != [] ==> at <= claims[0].first)
    ensures Placed(AsSpans(claims), at, n)
    decreases |claims|
  {
    if claims != [] {
      ApartTail(claims, n);
      hide Apart;
      ApartPlaced(claims[1..], claims[0].last, n);
      assert AsSpans(claims)[1..] == AsSpans(claims[1..]);
    }
  }

  /** The form with every claim read as the wildcard. */
  function Replaced(form: string, at: nat, claims: seq<Claimed>): string
    requires Apart(claims, |form|) && at <= |form| && (claims != [] ==> at <= claims[0].first)
  {
    ApartPlaced(claims, at, |form|);
    MaskedFrom(form, at, AsSpans(claims))
  }

  lemma {:induction false} ReplacedStep(form: string, at: nat, claims: seq<Claimed>)
    requires Apart(claims, |form|) && claims != [] && at <= claims[0].first
    ensures Apart(claims[1..], |form|) && (|claims| > 1 ==> claims[0].last <= claims[1].first)
    ensures claims[0].first < claims[0].last <= |form|
    ensures Replaced(form, at, claims) ==
            form[at..claims[0].first] + (MaskText(WildcardMask) + Replaced(form, claims[0].last, claims[1..]))
  {
    ApartTail(claims, |form|);
    ApartPlaced(claims, at, |form|);
    assert AsSpans(claims)[1..] == AsSpans(claims[1..]);
  }

  /** The copy loop both callers run. */
  method CopyReplaced(form: string, start: nat, claims: seq<Claimed>) returns (out: string)
    requires Apart(claims, |form|) && start <= |form| && (claims != [] ==> start <= claims[0].first)
    ensures out == Replaced(form, start, claims)
  {
    out := "";
    var copied := start;
    var i := 0;
    while i < |claims|
      invariant 0 <= i <= |claims| && start <= copied <= |form|
      invariant Apart(claims[i..], |form|) && (i < |claims| ==> copied <= claims[i..][0].first)
      invariant out + Replaced(form, copied, claims[i..]) == Replaced(form, start, claims)
    {
      hide Apart, Replaced, MaskText;
      var claim := claims[i];
      ReplacedStep(form, copied, claims[i..]);
      assert claims[i..][0] == claim && claims[i..][1..] == claims[i + 1..];
      Reassociate(form[copied..claim.first], MaskText(WildcardMask), Replaced(form, claim.last, claims[i + 1..]));
      Reassociate(out, form[copied..claim.first] + MaskText(WildcardMask), Replaced(form, claim.last, claims[i + 1..]));
      out := out + (form[copied..claim.first] + MaskText(WildcardMask));
      copied := claim.last;
      i := i + 1;
    }
    out := out + form[copied..];
  }

  /** `replace_declared_runs`. */
  method ReplaceDeclaredRuns(form: string, runs: seq<Run>) returns (out: Option<string>)
    requires GoodRuns(runs)
    ensures Apart(Claims(form, runs), |form|)
    ensures out == if Claims(form, runs) == [] then None else Some(Replaced(form, 0, Claims(form, runs)))
  {
    hide Claims, Apart, Replaced;
    ClaimsSound(form, runs);
    var claims := ClaimDeclaredRuns(form, runs);
    if claims == [] {
      return None;
    }
    var text := CopyReplaced(form, 0, claims);
    return Some(text);
  }

  function Tail(name: string, version: string, last: nat): nat {
    if HasVersion(name, version) then |name| - |version| else last
  }

  /** The discriminant with the declared runs inside the envelope, and before a declared version, read as
      the wildcard. */
  function DeclaredDiscriminant(name: string, version: string, runs: seq<Run>, w: Window): string
    requires GoodRuns(runs) && w.first <= w.last <= |name| && Tail(name, version, w.last) <= w.last
  {
    ClaimsSound(name, runs);
    var inside := Within(Claims(name, runs), w.first, Tail(name, version, w.last));
    WithinApart(Claims(name, runs), |name|, w.first, Tail(name, version, w.last));
    InsideStarts(Claims(name, runs), w.first, Tail(name, version, w.last), w.last);
    Replaced(name[..w.last], w.first, inside)
  }

  lemma {:induction false} InsideStarts(claims: seq<Claimed>, first: nat, last: nat, n: nat)
    requires last <= n && Apart(Within(claims, first, last), last)
    ensures var inside := Within(claims, first, last);
      Apart(inside, n) && (inside != [] ==> first <= inside[0].first)
  {
    var inside := Within(claims, first, last);
    if inside != [] {
      assert inside[0] in inside;
    }
  }

  lemma {:induction false} ReplacedWithin(form: string, at: nat, claims: seq<Claimed>, cut: nat, end: nat)
    requires cut <= end <= |form| && Apart(claims, cut) && Apart(claims, end) && at <= cut && (claims != [] ==> at <= claims[0].first)
    ensures Replaced(form[..end], at, claims) == Replaced(form[..cut], at, claims) + form[cut..end]
    decreases |claims|
  {
    hide Apart;
    if claims == [] {
      assert form[..end][at..] == form[..cut][at..] + form[cut..end];
    } else {
      ReplacedStep(form[..end], at, claims);
      ReplacedStep(form[..cut], at, claims);
      var first, last := claims[0].first, claims[0].last;
      ReplacedWithin(form, last, claims[1..], cut, end);
      assert form[..end][at..first] == form[..cut][at..first];
      Reassociate(MaskText(WildcardMask), Replaced(form[..cut], last, claims[1..]), form[cut..end]);
      Reassociate(form[at..first], MaskText(WildcardMask) + Replaced(form[..cut], last, claims[1..]), form[cut..end]);
    }
  }

  /** A declared run reads as the wildcard, and the text before it as itself. */
  lemma {:induction false} RunReadsAsWildcard(form: string, at: nat, claims: seq<Claimed>)
    requires Apart(claims, |form|) && claims != [] && at <= claims[0].first
    ensures Apart(claims[1..], |form|) && (|claims| > 1 ==> claims[0].last <= claims[1].first) && claims[0].last <= |form|
    ensures Replaced(form, at, claims) == form[at..claims[0].first] + ("<*>" + Replaced(form, claims[0].last, claims[1..]))
  {
    hide Apart, Replaced;
    ReplacedStep(form, at, claims);
  }

  /** Where the declared version at the end of a name begins, or where the discriminant ends without one. */
  function VersionCut(name: string, version: string, last: nat): nat {
    if 0 < |version| <= |name| then |name| - |version| else last
  }

  /** The version at the end of a name is kept as it is printed, whatever runs are declared; before it exactly the
      runs claimed inside the discriminant are replaced. */
  lemma {:induction false} VersionIsKept(name: string, version: string, runs: seq<Run>, w: Window)
    requires GoodRuns(runs) && w.first <= VersionCut(name, version, w.last) <= w.last <= |name|
    ensures var cut := VersionCut(name, version, w.last);
      var inside := Within(Claims(name, runs), w.first, cut);
      && Tail(name, version, w.last) <= w.last && Apart(inside, cut) && (inside != [] ==> w.first <= inside[0].first)
      && DeclaredDiscriminant(name, version, runs, w) == Replaced(name[..cut], w.first, inside) + name[cut..w.last]
  {
    hide Claims, Apart, Replaced, GoodRuns;
    var cut := VersionCut(name, version, w.last);
    ClaimsSound(name, runs);
    WithinApart(Claims(name, runs), |name|, w.first, cut);
    InsideStarts(Claims(name, runs), w.first, cut, w.last);
    InsideStarts(Claims(name, runs), w.first, cut, cut);
    ReplacedWithin(name, w.first, Within(Claims(name, runs), w.first, cut), cut, w.last);
  }

  lemma {:induction false} WindowFits(raw: string, version: string)
    ensures match VersionedWindow(raw, version)
            case None => true
            case Some(w) => w.first < w.last <= |Trimmed(raw)| && Tail(Trimmed(raw), version, w.last) <= w.last
  {
    hide Spans, Trimmed;
    var name := Trimmed(raw);
    if HasVersion(name, version) {
      var h := Trimmed(HeadOf(name, version));
      TrimmedShorter(HeadOf(name, version));
      if Spans(h, 0) != [] {
        EnvelopeIsLeast(h, Window(0, 0));
      }
    } else if Spans(name, 0) != [] {
      EnvelopeIsLeast(name, Window(0, 0));
    }
  }

  lemma {:induction false} TrimmedShorter(s: string)
    ensures |Trimmed(s)| <= |s|
  {
  }

  /** `declared_discriminant_of`. */
  method DeclaredDiscriminantOf(raw: string, version: string, runs: seq<Run>) returns (out: string)
    requires GoodRuns(runs)
    ensures match VersionedWindow(raw, version)
            case None => out == ""
            case Some(w) =>
              && w.first < w.last <= |Trimmed(raw)| && Tail(Trimmed(raw), version, w.last) <= w.last
              && out == DeclaredDiscriminant(Trimmed(raw), version, runs, w)
  {
    hide Spans, Trimmed, Claims, VersionedWindow, Replaced, Apart, GoodRuns;
    WindowFits(raw, version);
    var name := Trimmed(raw);
    var window := DiscriminantOf(raw, version);
    if window.None? {
      return "";
    }
    var first, last := window.value.first, window.value.last;
    if runs == [] {
      NoRuns(name, version, runs, window.value);
      return name[first..last];
    }
    var tail := if version == "" || |version| > |name| then last else |name| - |version|;
    var claims := ClaimDeclaredRuns(name, runs);
    ClaimsSound(name, runs);
    WithinApart(claims, |name|, first, tail);
    InsideStarts(claims, first, tail, last);
    out := CopyReplaced(name[..last], first, Within(claims, first, tail));
  }

  lemma {:induction false} NoRuns(name: string, version: string, runs: seq<Run>, w: Window)
    requires runs == [] && w.first <= w.last <= |name| && Tail(name, version, w.last) <= w.last
    ensures DeclaredDiscriminant(name, version, runs, w) == name[w.first..w.last]
  {
    assert Claims(name, runs) == [];
    assert name[..w.last][w.first..] == name[w.first..w.last];
  }
}
