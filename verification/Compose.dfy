/**
 Composition of semantic packages (canonical_order, compose, for_stream and withholds_markers_for in
 core/src/compose/compose.cpp): the packages in canonical order, their tables concatenated, the identity
 preimage, and the views a stream's dialect and channel select. The digest of the preimage is opaque
 here: the preimage itself stands for it.
 */
module Compose {
  import opened Wrappers
  import opened KeySort
  import opened Preimage

  // ----- canonical order -----

  predicate NamesDistinct(pkgs: seq<Manifest>) {
    forall i, j :: 0 <= i < j < |pkgs| ==> pkgs[i].name != pkgs[j].name
  }

  function Named(pkgs: seq<Manifest>): (r: seq<Keyed<Manifest>>)
    ensures |r| == |pkgs| && forall i :: 0 <= i < |pkgs| ==> r[i] == Keyed(pkgs[i].name, pkgs[i])
  {
    seq(|pkgs|, i requires 0 <= i < |pkgs| => Keyed(pkgs[i].name, pkgs[i]))
  }

  /** The packages sorted by name; names are distinct, so no tie is ever broken. */
  function Canonical(pkgs: seq<Manifest>): seq<Manifest> {
    Items(SortByKey(Named(pkgs)))
  }

  lemma {:induction false} NamedConcat(a: seq<Manifest>, b: seq<Manifest>)
    ensures Named(a + b) == Named(a) + Named(b)
  {
  }

  lemma {:induction false} NamedAround(left: seq<Manifest>, x: Manifest, right: seq<Manifest>)
    ensures multiset(Named(left + [x] + right)) == multiset{Keyed(x.name, x)} + multiset(Named(left + right))
  {
    NamedConcat(left + [x], right);
    NamedConcat(left, [x]);
    NamedConcat(left, right);
    assert Named([x]) == [Keyed(x.name, x)];
    hide Named;
  }

  lemma {:induction false} NamedBag(pkgs: seq<Manifest>, others: seq<Manifest>)
    requires multiset(pkgs) == multiset(others)
    ensures multiset(Named(pkgs)) == multiset(Named(others))
  {
    hide Named;
    assert |pkgs| == |multiset(pkgs)| == |others|;
    if pkgs == [] {
      assert others == [];
    } else {
      var i := TakeOut(pkgs, others);
      NamedBag(pkgs[1..], others[..i] + others[i + 1..]);
      NamedAround([], pkgs[0], pkgs[1..]);
      NamedAround(others[..i], pkgs[0], others[i + 1..]);
      assert [] + [pkgs[0]] + pkgs[1..] == pkgs && [] + pkgs[1..] == pkgs[1..];
    }
  }

  lemma {:induction false} SortAscends(pkgs: seq<Manifest>)
    requires NamesDistinct(pkgs)
    ensures Ascending(SortByKey(Named(pkgs))) && multiset(SortByKey(Named(pkgs))) == multiset(Named(pkgs))
  {
    var xs, sorted := Named(pkgs), SortByKey(Named(pkgs));
    SortByKeySorts(xs);
    assert DistinctKeys(xs);
    DistinctIsABagProperty(xs, sorted);
    AdjacentTestDecides(sorted);
  }

  /** One set of name-distinct packages has one canonical order, however the caller lists it. */
  lemma {:induction false} CanonicalIsUnique(pkgs: seq<Manifest>, others: seq<Manifest>)
    requires NamesDistinct(pkgs) && NamesDistinct(others) && multiset(pkgs) == multiset(others)
    ensures Canonical(pkgs) == Canonical(others)
  {
    SortAscends(pkgs);
    SortAscends(others);
    NamedBag(pkgs, others);
    AscendingIsUnique(SortByKey(Named(pkgs)), SortByKey(Named(others)));
  }

  /** Each package's name precedes the next one's in byte order. */
  lemma {:induction false} CanonicalAscends(pkgs: seq<Manifest>)
    requires NamesDistinct(pkgs)
    ensures forall i :: 0 <= i < |Canonical(pkgs)| - 1 ==> Precedes(Canonical(pkgs)[i].name, Canonical(pkgs)[i + 1].name)
  {
    hide Precedes, SortByKey;
    var sorted := SortByKey(Named(pkgs));
    SortAscends(pkgs);
    AscendingIsByteOrder(sorted);
    forall i | 0 <= i < |sorted|
      ensures sorted[i].key == sorted[i].item.name
    {
      assert sorted[i] in multiset(Named(pkgs));
    }
  }

  /** Sorting loses and invents no package. */
  lemma {:induction false} CanonicalKeeps(pkgs: seq<Manifest>)
    ensures multiset(Canonical(pkgs)) == multiset(pkgs) && |Canonical(pkgs)| == |pkgs|
  {
    SortByKeySorts(Named(pkgs));
    ItemsOfBag(SortByKey(Named(pkgs)), Named(pkgs));
    assert Items(Named(pkgs)) == pkgs;
    assert |multiset(Canonical(pkgs))| == |Canonical(pkgs)| && |multiset(pkgs)| == |pkgs|;
  }

  // ----- the preimage -----

  datatype Transform = Transform(name: string, kind: u8, extract: u8, prefixWidth: nat, stripLeadingSpace: bool)

  /** What precedes the packages: grammar and canonicalization versions, and the transport catalogue. */
  datatype Versions = Versions(grammar: string, canonicalization: string, catalog: string, transforms: seq<Transform>)

  function TransformBytes(t: Transform): string {
    TextBytes(t.name) + ByteBytes(t.kind) + ByteBytes(t.extract) + WordBytes(t.prefixWidth) +
    ByteBytes(if t.stripLeadingSpace then 1 else 0)
  }

  predicate SmallTransform(t: Transform) {
    |t.name| < WORD && t.prefixWidth < WORD
  }

  function ReadTransform(s: string): Option<(Transform, string)> {
    var (name, s1) :- ReadText(s);
    var (kind, s2) :- ReadByte(s1);
    var (extract, s3) :- ReadByte(s2);
    var (width, s4) :- ReadWord(s3);
    var (strip, s5) :- ReadByte(s4);
    Some((Transform(name, kind, extract, width, strip == 1), s5))
  }

  lemma {:induction false} TransformBack(t: Transform, rest: string)
    requires SmallTransform(t)
    ensures ReadTransform(TransformBytes(t) + rest) == Some((t, rest))
  {
    hide TextBytes, ByteBytes, WordBytes, ReadText, ReadByte, ReadWord;
    Reassociated();
    var strip: u8 := if t.stripLeadingSpace then 1 else 0;
    var t4 := ByteBytes(strip) + rest;
    var t3 := WordBytes(t.prefixWidth) + t4;
    var t2 := ByteBytes(t.extract) + t3;
    var t1 := ByteBytes(t.kind) + t2;
    TextBack(t.name, t1);
    ByteBack(t.kind, t2);
    ByteBack(t.extract, t3);
    WordBack(t.prefixWidth, t4);
    ByteBack(strip, rest);
    assert TransformBytes(t) + rest == TextBytes(t.name) + t1;
  }

  function VersionsBytes(v: Versions): string {
    TextBytes(v.grammar) + TextBytes(v.canonicalization) + TextBytes(v.catalog) + TableBytes(TransformBytes, v.transforms)
  }

  predicate SmallVersions(v: Versions) {
    |v.grammar| < WORD && |v.canonicalization| < WORD && |v.catalog| < WORD && SmallTable(SmallTransform, v.transforms)
  }

  function ReadVersions(s: string): Option<(Versions, string)> {
    var (grammar, s1) :- ReadText(s);
    var (canonicalization, s2) :- ReadText(s1);
    var (catalog, s3) :- ReadText(s2);
    var (transforms, s4) :- ReadTable(ReadTransform, s3);
    Some((Versions(grammar, canonicalization, catalog, transforms), s4))
  }

  lemma {:induction false} VersionsBack(v: Versions, rest: string)
    requires SmallVersions(v)
    ensures ReadVersions(VersionsBytes(v) + rest) == Some((v, rest))
  {
    hide TextBytes, TableBytes, ReadText, ReadTable, SmallTable, TransformBytes, ReadTransform, SmallTransform;
    Reassociated();
    var t3 := TableBytes(TransformBytes, v.transforms) + rest;
    var t2 := TextBytes(v.catalog) + t3;
    var t1 := TextBytes(v.canonicalization) + t2;
    TextBack(v.grammar, t1);
    TextBack(v.canonicalization, t2);
    TextBack(v.catalog, t3);
    forall t, more | SmallTransform(t)
      ensures ReadTransform(TransformBytes(t) + more) == Some((t, more))
    {
      TransformBack(t, more);
    }
    TableBack(TransformBytes, ReadTransform, SmallTransform, v.transforms, rest);
    assert VersionsBytes(v) + rest == TextBytes(v.grammar) + t1;
  }

  /** The preimage: the versions, then every package in canonical order, with no count before them. */
  function PreimageOf(v: Versions, pkgs: seq<Manifest>): string {
    VersionsBytes(v) + EachRow(ManifestBytes, Canonical(pkgs))
  }

  /** Reads manifests until nothing is left. */
  function ReadManifests(s: string): Option<seq<Manifest>>
    decreases |s|
  {
    if s == "" then Some([])
    else
      var (pkg, rest) :- ReadManifest(s);
      if |rest| >= |s| then None
      else
        var pkgs :- ReadManifests(rest);
        Some([pkg] + pkgs)
  }

  function ReadPreimage(s: string): Option<(Versions, seq<Manifest>)> {
    var (v, rest) :- ReadVersions(s);
    var pkgs :- ReadManifests(rest);
    Some((v, pkgs))
  }

  function NominalAll(pkgs: seq<Manifest>): (r: seq<Manifest>)
    ensures |r| == |pkgs| && forall i :: 0 <= i < |pkgs| ==> r[i] == Nominal(pkgs[i])
  {
    seq(|pkgs|, i requires 0 <= i < |pkgs| => Nominal(pkgs[i]))
  }

  lemma {:induction false} ManifestNotEmpty(pkg: Manifest)
    ensures ManifestBytes(pkg) != ""
  {
    hide RulesBytes, OutcomesBytes, LittleEndian;
    assert |TextBytes(pkg.name)| >= 4;
  }

  lemma {:induction false} ManifestsBack(pkgs: seq<Manifest>)
    requires forall i :: 0 <= i < |pkgs| ==> SmallManifest(pkgs[i])
    ensures ReadManifests(EachRow(ManifestBytes, pkgs)) == Some(NominalAll(pkgs))
  {
    hide ManifestBytes, ReadManifest, SmallManifest, Nominal;
    if pkgs == [] {
      assert NominalAll(pkgs) == [];
    } else {
      ManifestNotEmpty(pkgs[0]);
      ManifestBack(pkgs[0], EachRow(ManifestBytes, pkgs[1..]));
      ManifestsBack(pkgs[1..]);
      assert NominalAll(pkgs) == [Nominal(pkgs[0])] + NominalAll(pkgs[1..]);
    }
  }

  /** The preimage is uniquely decodable: it gives back the versions and the packages in canonical order. */
  lemma {:induction false} PreimageBack(v: Versions, pkgs: seq<Manifest>)
    requires SmallVersions(v) && forall i :: 0 <= i < |pkgs| ==> SmallManifest(pkgs[i])
    ensures ReadPreimage(PreimageOf(v, pkgs)) == Some((v, NominalAll(Canonical(pkgs))))
  {
    hide VersionsBytes, ReadVersions, SmallManifest, SmallVersions, NominalAll, Canonical;
    CanonicalKeeps(pkgs);
    forall i | 0 <= i < |Canonical(pkgs)|
      ensures SmallManifest(Canonical(pkgs)[i])
    {
      assert Canonical(pkgs)[i] in multiset(pkgs);
    }
    VersionsBack(v, EachRow(ManifestBytes, Canonical(pkgs)));
    ManifestsBack(Canonical(pkgs));
  }

  /** Equal preimages: equal versions and, hook addresses aside, the same packages. */
  lemma {:induction false} PreimageSeparates(v: Versions, pkgs: seq<Manifest>, w: Versions, others: seq<Manifest>)
    requires SmallVersions(v) && forall i :: 0 <= i < |pkgs| ==> SmallManifest(pkgs[i])
    requires SmallVersions(w) && forall i :: 0 <= i < |others| ==> SmallManifest(others[i])
    requires PreimageOf(v, pkgs) == PreimageOf(w, others)
    ensures v == w && NominalAll(Canonical(pkgs)) == NominalAll(Canonical(others))
  {
    hide PreimageOf, SmallVersions, SmallManifest, NominalAll, Canonical, ReadPreimage;
    PreimageBack(v, pkgs);
    PreimageBack(w, others);
  }

  // ----- the composed tables -----

  datatype Package = Package(name: string, version: string, hasStrategy: bool, hasEchoedSource: bool)

  /** Everything a composition holds before a stream filters it. */
  datatype Tables = Tables(
    roles: seq<RoleRow>, markers: seq<MarkerRow>, levelLifts: seq<LevelLiftRow>, locations: seq<LocationRow>,
    valueClasses: seq<ValueClassRow>, outcomeTokens: seq<OutcomeTokenRow>, outcomeMarkers: seq<OutcomeMarkerRow>,
    channels: seq<string>, declaredValues: seq<DeclaredValueRow>, declaredValueKeys: seq<string>,
    strategies: seq<int>, provenanceHooks: seq<int>, packages: seq<Package>, preimage: string)

  function Flatten<T>(table: Manifest -> seq<T>, pkgs: seq<Manifest>): seq<T> {
    if pkgs == [] then [] else table(pkgs[0]) + Flatten(table, pkgs[1..])
  }

  lemma {:induction false} FlattenSnoc<T>(table: Manifest -> seq<T>, pkgs: seq<Manifest>, pkg: Manifest)
    ensures Flatten(table, pkgs + [pkg]) == Flatten(table, pkgs) + table(pkg)
  {
    if pkgs == [] {
      assert [] + [pkg] == [pkg] && [pkg][1..] == [];
      assert Flatten(table, [pkg]) == table(pkg) + Flatten(table, []);
    } else {
      assert (pkgs + [pkg])[1..] == pkgs[1..] + [pkg];
      FlattenSnoc(table, pkgs[1..], pkg);
      assert table(pkgs[0]) + (Flatten(table, pkgs[1..]) + table(pkg)) == table(pkgs[0]) + Flatten(table, pkgs[1..]) + table(pkg);
    }
  }

  /** First occurrences, in order. */
  function Distinct(xs: seq<string>): (d: seq<string>)
    ensures forall x :: x in d <==> x in xs
    ensures forall i, j :: 0 <= i < j < |d| ==> d[i] != d[j]
  {
    if xs == [] then []
    else
      var n := |xs| - 1;
      assert xs == xs[..n] + [xs[n]];
      if xs[n] in xs[..n] then Distinct(xs[..n]) else Distinct(xs[..n]) + [xs[n]]
  }

  /** `picked` stands at the ascending positions `at` of `all`: nothing reordered, nothing repeated. */
  ghost predicate PickedAt<T>(picked: seq<T>, all: seq<T>, at: seq<nat>) {
    && |at| == |picked|
    && (forall i :: 0 <= i < |at| ==> at[i] < |all| && picked[i] == all[at[i]])
    && (forall i, j :: 0 <= i < j < |at| ==> at[i] < at[j])
  }

  ghost predicate FirstAt(xs: seq<string>, j: nat)
    requires j < |xs|
  {
    xs[j] !in xs[..j]
  }

  /** The distinct names stand at the positions that repeat no earlier name. */
  lemma {:induction false} DistinctKeepsFirst(xs: seq<string>) returns (at: seq<nat>)
    ensures PickedAt(Distinct(xs), xs, at)
    ensures forall j :: 0 <= j < |xs| ==> (j in at <==> FirstAt(xs, j))
  {
    if xs == [] {
      at := [];
    } else {
      var n := |xs| - 1;
      var rest := DistinctKeepsFirst(xs[..n]);
      PickedLonger(Distinct(xs[..n]), xs, rest);
      at := if FirstAt(xs, n) then rest + [n] else rest;
      hide PickedAt, FirstAt;
      forall j | 0 <= j < |xs|
        ensures j in at <==> FirstAt(xs, j)
      {
        if j < n {
          FirstEarlier(xs, j);
        }
      }
    }
  }

  lemma {:induction false} FirstEarlier(xs: seq<string>, j: nat)
    requires j + 1 < |xs|
    ensures FirstAt(xs[..|xs| - 1], j) == FirstAt(xs, j)
  {
    assert xs[..|xs| - 1][..j] == xs[..j];
  }

  lemma {:induction false} PickedLonger<T>(picked: seq<T>, xs: seq<T>, rest: seq<nat>)
    requires xs != [] && PickedAt(picked, xs[..|xs| - 1], rest)
    ensures PickedAt(picked, xs, rest) && |xs| - 1 !in rest
    ensures PickedAt(picked + [xs[|xs| - 1]], xs, rest + [|xs| - 1])
  {
  }

  /** One more name joins the distinct ones exactly when it is not among them. */
  lemma {:induction false} DistinctStep(seen: seq<string>, more: seq<string>, i: nat)
    requires i < |more|
    ensures var known := Distinct(seen + more[..i]);
      Distinct(seen + more[..i + 1]) == if more[i] in known then known else known + [more[i]]
  {
    var all := seen + more[..i + 1];
    assert all[..|all| - 1] == seen + more[..i] && all[|all| - 1] == more[i];
  }

  /** The membership loop over one package's names. */
  method AddDistinct(before: seq<string>, ghost seen: seq<string>, more: seq<string>) returns (names: seq<string>)
    requires before == Distinct(seen)
    ensures names == Distinct(seen + more)
  {
    hide Distinct;
    names := before;
    assert seen + more[..0] == seen;
    for i := 0 to |more|
      invariant names == Distinct(seen + more[..i])
    {
      DistinctStep(seen, more, i);
      if more[i] !in names {
        names := names + [more[i]];
      }
    }
    assert more[..|more|] == more;
  }

  function RolesOf(p: Manifest): seq<RoleRow> { p.roles }
  function MarkersOf(p: Manifest): seq<MarkerRow> { p.markers }
  function LevelLiftsOf(p: Manifest): seq<LevelLiftRow> { p.levelLifts }
  function LocationsOf(p: Manifest): seq<LocationRow> { p.locations }
  function ValueClassesOf(p: Manifest): seq<ValueClassRow> { p.valueClasses }
  function OutcomeTokensOf(p: Manifest): seq<OutcomeTokenRow> { p.outcomeTokens }
  function OutcomeMarkersOf(p: Manifest): seq<OutcomeMarkerRow> { p.outcomeMarkers }
  function ChannelsOf(p: Manifest): seq<string> { p.channels }
  function DeclaredValuesOf(p: Manifest): seq<DeclaredValueRow> { p.declaredValues }
  function KeysOf(p: Manifest): seq<string> { Keys(p.declaredValues) }
  function StrategyOf(p: Manifest): seq<int> { if p.strategy.Some? then [p.strategy.value] else [] }
  function HookIn(p: Manifest): seq<int> { if p.echoedSource.Some? then [p.echoedSource.value] else [] }
  function PackageOf(p: Manifest): seq<Package> { [Package(p.name, p.version, p.strategy.Some?, p.echoedSource.Some?)] }

  function Keys(rows: seq<DeclaredValueRow>): (keys: seq<string>)
    ensures |keys| == |rows| && forall i :: 0 <= i < |rows| ==> keys[i] == rows[i].key
  {
    seq(|rows|, i requires 0 <= i < |rows| => rows[i].key)
  }

  /** The tables of packages taken in the given order. */
  function TablesOf(v: Versions, ordered: seq<Manifest>): Tables {
    Tables(Flatten(RolesOf, ordered), Flatten(MarkersOf, ordered), Flatten(LevelLiftsOf, ordered),
           Flatten(LocationsOf, ordered), Flatten(ValueClassesOf, ordered), Flatten(OutcomeTokensOf, ordered),
           Flatten(OutcomeMarkersOf, ordered), Distinct(Flatten(ChannelsOf, ordered)),
           Flatten(DeclaredValuesOf, ordered), Distinct(Flatten(KeysOf, ordered)), Flatten(StrategyOf, ordered),
           Flatten(HookIn, ordered), Flatten(PackageOf, ordered), VersionsBytes(v) + EachRow(ManifestBytes, ordered))
  }

  lemma {:induction false} EachRowSnoc<T>(bytes: T -> string, rows: seq<T>, row: T)
    ensures EachRow(bytes, rows + [row]) == EachRow(bytes, rows) + bytes(row)
  {
    if rows == [] {
      assert [] + [row] == [row] && [row][1..] == [];
      assert EachRow(bytes, [row]) == bytes(row) + EachRow(bytes, []);
    } else {
      assert (rows + [row])[1..] == rows[1..] + [row];
      EachRowSnoc(bytes, rows[1..], row);
      Associates(bytes(rows[0]), EachRow(bytes, rows[1..]), bytes(row));
    }
  }

  /** One package more. */
  lemma {:induction false} TablesSnoc(v: Versions, ordered: seq<Manifest>, pkg: Manifest)
    ensures var t, next := TablesOf(v, ordered), TablesOf(v, ordered + [pkg]);
      && next.roles == t.roles + pkg.roles && next.markers == t.markers + pkg.markers
      && next.levelLifts == t.levelLifts + pkg.levelLifts && next.locations == t.locations + pkg.locations
      && next.valueClasses == t.valueClasses + pkg.valueClasses
      && next.outcomeTokens == t.outcomeTokens + pkg.outcomeTokens
      && next.outcomeMarkers == t.outcomeMarkers + pkg.outcomeMarkers
      && next.channels == Distinct(Flatten(ChannelsOf, ordered) + pkg.channels)
      && next.declaredValues == t.declaredValues + pkg.declaredValues
      && next.declaredValueKeys == Distinct(Flatten(KeysOf, ordered) + Keys(pkg.declaredValues))
      && next.strategies == t.strategies + StrategyOf(pkg) && next.provenanceHooks == t.provenanceHooks + HookIn(pkg)
      && next.packages == t.packages + PackageOf(pkg) && next.preimage == t.preimage + ManifestBytes(pkg)
  {
    hide Flatten, Distinct, EachRow, ManifestBytes, VersionsBytes;
    FlattenSnoc(RolesOf, ordered, pkg);
    FlattenSnoc(MarkersOf, ordered, pkg);
    FlattenSnoc(LevelLiftsOf, ordered, pkg);
    FlattenSnoc(LocationsOf, ordered, pkg);
    FlattenSnoc(ValueClassesOf, ordered, pkg);
    FlattenSnoc(OutcomeTokensOf, ordered, pkg);
    FlattenSnoc(OutcomeMarkersOf, ordered, pkg);
    FlattenSnoc(ChannelsOf, ordered, pkg);
    FlattenSnoc(DeclaredValuesOf, ordered, pkg);
    FlattenSnoc(KeysOf, ordered, pkg);
    FlattenSnoc(StrategyOf, ordered, pkg);
    FlattenSnoc(HookIn, ordered, pkg);
    FlattenSnoc(PackageOf, ordered, pkg);
    EachRowSnoc(ManifestBytes, ordered, pkg);
    Associates(VersionsBytes(v), EachRow(ManifestBytes, ordered), ManifestBytes(pkg));
  }

  // ----- views -----

  /** A composition as one stream sees it. */
  datatype Semantics = Semantics(
    all: Tables, declaredDialect: string, roles: seq<RoleRow>, markers: seq<MarkerRow>, levelLifts: seq<LevelLiftRow>,
    outcomeTokens: seq<OutcomeTokenRow>, outcomeMarkers: seq<OutcomeMarkerRow>, declaredValues: seq<DeclaredValueRow>)

  /** `dialect_admits` and `channel_admits`: an empty gate always fires, a concrete one on its own name. */
  predicate Admits(gate: string, declared: string) {
    gate == "" || gate == declared
  }

  /** `copy_if`. */
  function Filter<T>(keep: T -> bool, xs: seq<T>): (r: seq<T>)
    ensures forall i :: 0 <= i < |r| ==> r[i] in xs && keep(r[i])
    ensures forall i :: 0 <= i < |xs| && keep(xs[i]) ==> xs[i] in r
  {
    if xs == [] then []
    else
      assert xs == [xs[0]] + xs[1..];
      (if keep(xs[0]) then [xs[0]] else []) + Filter(keep, xs[1..])
  }

  /** The rows at exactly the positions whose row is `wanted`, in their order. */
  ghost predicate Shows<T>(picked: seq<T>, all: seq<T>, wanted: T -> bool) {
    exists at: seq<nat> :: PickedAt(picked, all, at) && forall j :: 0 <= j < |all| ==> (j in at <==> wanted(all[j]))
  }

  lemma {:induction false} FilterShows<T>(keep: T -> bool, xs: seq<T>)
    ensures Shows(Filter(keep, xs), xs, keep)
  {
    var at := FilterPositions(keep, xs);
    assert PickedAt(Filter(keep, xs), xs, at);
  }

  lemma {:induction false} FilterPositions<T>(keep: T -> bool, xs: seq<T>) returns (at: seq<nat>)
    ensures PickedAt(Filter(keep, xs), xs, at)
    ensures forall j :: 0 <= j < |xs| ==> (j in at <==> keep(xs[j]))
  {
    if xs == [] {
      at := [];
    } else {
      var rest := FilterPositions(keep, xs[1..]);
      var later := seq(|rest|, i requires 0 <= i < |rest| => rest[i] + 1);
      PickedLater(Filter(keep, xs[1..]), xs, rest, later);
      PickedHead(Filter(keep, xs[1..]), xs, later);
      hide PickedAt;
      at := if keep(xs[0]) then [0] + later else later;
      assert [] + Filter(keep, xs[1..]) == Filter(keep, xs[1..]);
      forall j | 0 <= j < |xs|
        ensures j in at <==> keep(xs[j])
      {
        if j > 0 {
          ShiftedMember(rest, later, j);
          assert xs[j] == xs[1..][j - 1];
        }
      }
    }
  }

  lemma {:induction false} PickedLater<T>(picked: seq<T>, xs: seq<T>, rest: seq<nat>, later: seq<nat>)
    requires xs != [] && PickedAt(picked, xs[1..], rest)
    requires |later| == |rest| && forall i :: 0 <= i < |rest| ==> later[i] == rest[i] + 1
    ensures PickedAt(picked, xs, later) && 0 !in later
  {
  }

  lemma {:induction false} PickedHead<T>(picked: seq<T>, xs: seq<T>, later: seq<nat>)
    requires xs != [] && PickedAt(picked, xs, later) && 0 !in later
    ensures PickedAt([xs[0]] + picked, xs, [0] + later)
  {
  }

  lemma {:induction false} ShiftedMember(rest: seq<nat>, later: seq<nat>, j: nat)
    requires j > 0 && |later| == |rest| && forall i :: 0 <= i < |rest| ==> later[i] == rest[i] + 1
    ensures j in later <==> j - 1 in rest
  {
    if j - 1 in rest {
      var i :| 0 <= i < |rest| && rest[i] == j - 1;
      assert later[i] == j;
    }
  }

  predicate KnownDialect(c: Tables, dialect: string) {
    dialect == "" || exists i :: 0 <= i < |c.packages| && c.packages[i].name == dialect
  }

  predicate KnownChannel(c: Tables, channel: string) {
    channel == "" || channel in c.channels
  }

  function ViewOf(c: Tables, dialect: string, channel: string): Semantics {
    Semantics(c, dialect,
      Filter((r: RoleRow) => Admits(r.dialectGate, dialect), c.roles),
      Filter((r: MarkerRow) => Admits(r.dialectGate, dialect) && Admits(r.channelGate, channel), c.markers),
      Filter((r: LevelLiftRow) => Admits(r.dialectGate, dialect), c.levelLifts),
      Filter((r: OutcomeTokenRow) => Admits(r.dialectGate, dialect), c.outcomeTokens),
      Filter((r: OutcomeMarkerRow) => Admits(r.dialectGate, dialect), c.outcomeMarkers),
      Filter((r: DeclaredValueRow) => Admits(r.dialectGate, dialect), c.declaredValues))
  }

  /** `for_stream`: an unknown dialect or channel fails closed. */
  function ForStream(s: Semantics, dialect: string, channel: string): Option<Semantics> {
    if !KnownDialect(s.all, dialect) || !KnownChannel(s.all, channel) then None
    else Some(ViewOf(s.all, dialect, channel))
  }

  /** What a view shows. It is refused exactly for a dialect that names no package and a channel no package
      lists. In every table the view has exactly the rows without a gate and those gated by the declared name,
      in the order and as often as the composition has them. */
  lemma {:induction false} ViewShows(s: Semantics, dialect: string, channel: string)
    ensures ForStream(s, dialect, channel).None? <==>
      || (dialect != "" && forall i :: 0 <= i < |s.all.packages| ==> s.all.packages[i].name != dialect)
      || (channel != "" && channel !in s.all.channels)
    ensures ForStream(s, dialect, channel).Some? ==> ShowsGates(ForStream(s, dialect, channel).value, dialect, channel)
    ensures ForStream(s, dialect, channel).Some? ==> ForStream(s, dialect, channel).value.all == s.all
  {
    hide Shows;
    ViewShowsGates(s.all, dialect, channel);
  }

  ghost predicate ShowsGates(v: Semantics, dialect: string, channel: string) {
    && Shows(v.roles, v.all.roles, (r: RoleRow) => r.dialectGate == "" || r.dialectGate == dialect)
    && Shows(v.markers, v.all.markers, (r: MarkerRow) =>
         (r.dialectGate == "" || r.dialectGate == dialect) && (r.channelGate == "" || r.channelGate == channel))
    && Shows(v.levelLifts, v.all.levelLifts, (r: LevelLiftRow) => r.dialectGate == "" || r.dialectGate == dialect)
    && Shows(v.outcomeTokens, v.all.outcomeTokens, (r: OutcomeTokenRow) => r.dialectGate == "" || r.dialectGate == dialect)
    && Shows(v.outcomeMarkers, v.all.outcomeMarkers, (r: OutcomeMarkerRow) => r.dialectGate == "" || r.dialectGate == dialect)
    && Shows(v.declaredValues, v.all.declaredValues, (r: DeclaredValueRow) => r.dialectGate == "" || r.dialectGate == dialect)
  }

  lemma {:induction false} ShowsSame<T>(picked: seq<T>, all: seq<T>, wanted: T -> bool, same: T -> bool)
    requires Shows(picked, all, wanted) && forall i :: 0 <= i < |all| ==> wanted(all[i]) == same(all[i])
    ensures Shows(picked, all, same)
  {
    var at: seq<nat> :| PickedAt(picked, all, at) && forall j :: 0 <= j < |all| ==> (j in at <==> wanted(all[j]));
    hide PickedAt;
    assert forall j :: 0 <= j < |all| ==> (j in at <==> same(all[j]));
  }

  lemma {:induction false} ViewShowsGates(c: Tables, dialect: string, channel: string)
    ensures ShowsGates(ViewOf(c, dialect, channel), dialect, channel)
  {
    hide Shows, Filter;
    var v := ViewOf(c, dialect, channel);
    RowsShown(c.roles, v.roles, (r: RoleRow) => Admits(r.dialectGate, dialect),
      (r: RoleRow) => r.dialectGate == "" || r.dialectGate == dialect);
    RowsShown(c.markers, v.markers, (r: MarkerRow) => Admits(r.dialectGate, dialect) && Admits(r.channelGate, channel),
      (r: MarkerRow) => (r.dialectGate == "" || r.dialectGate == dialect) && (r.channelGate == "" || r.channelGate == channel));
    RowsShown(c.levelLifts, v.levelLifts, (r: LevelLiftRow) => Admits(r.dialectGate, dialect),
      (r: LevelLiftRow) => r.dialectGate == "" || r.dialectGate == dialect);
    RowsShown(c.outcomeTokens, v.outcomeTokens, (r: OutcomeTokenRow) => Admits(r.dialectGate, dialect),
      (r: OutcomeTokenRow) => r.dialectGate == "" || r.dialectGate == dialect);
    RowsShown(c.outcomeMarkers, v.outcomeMarkers, (r: OutcomeMarkerRow) => Admits(r.dialectGate, dialect),
      (r: OutcomeMarkerRow) => r.dialectGate == "" || r.dialectGate == dialect);
    RowsShown(c.declaredValues, v.declaredValues, (r: DeclaredValueRow) => Admits(r.dialectGate, dialect),
      (r: DeclaredValueRow) => r.dialectGate == "" || r.dialectGate == dialect);
  }

  lemma {:induction false} RowsShown<T>(rows: seq<T>, shown: seq<T>, keep: T -> bool, wanted: T -> bool)
    requires shown == Filter(keep, rows) && forall i :: 0 <= i < |rows| ==> keep(rows[i]) == wanted(rows[i])
    ensures Shows(shown, rows, wanted)
  {
    hide Shows, Filter;
    FilterShows(keep, rows);
    ShowsSame(shown, rows, keep, wanted);
  }

  /** A fresh composition shows exactly the rows without any gate. */
  lemma {:induction false} FreshShows(v: Versions, packages: seq<Manifest>)
    ensures var made := ViewOf(TablesOf(v, Canonical(packages)), "", "");
      && Shows(made.roles, made.all.roles, (r: RoleRow) => r.dialectGate == "")
      && Shows(made.markers, made.all.markers, (r: MarkerRow) => r.dialectGate == "" && r.channelGate == "")
      && Shows(made.levelLifts, made.all.levelLifts, (r: LevelLiftRow) => r.dialectGate == "")
      && Shows(made.outcomeTokens, made.all.outcomeTokens, (r: OutcomeTokenRow) => r.dialectGate == "")
      && Shows(made.outcomeMarkers, made.all.outcomeMarkers, (r: OutcomeMarkerRow) => r.dialectGate == "")
      && Shows(made.declaredValues, made.all.declaredValues, (r: DeclaredValueRow) => r.dialectGate == "")
  {
    hide Shows, Filter, TablesOf, Canonical;
    var c := TablesOf(v, Canonical(packages));
    var made := ViewOf(c, "", "");
    RowsShown(c.roles, made.roles, (r: RoleRow) => Admits(r.dialectGate, ""), (r: RoleRow) => r.dialectGate == "");
    RowsShown(c.markers, made.markers, (r: MarkerRow) => Admits(r.dialectGate, "") && Admits(r.channelGate, ""),
      (r: MarkerRow) => r.dialectGate == "" && r.channelGate == "");
    RowsShown(c.levelLifts, made.levelLifts, (r: LevelLiftRow) => Admits(r.dialectGate, ""), (r: LevelLiftRow) => r.dialectGate == "");
    RowsShown(c.outcomeTokens, made.outcomeTokens, (r: OutcomeTokenRow) => Admits(r.dialectGate, ""),
      (r: OutcomeTokenRow) => r.dialectGate == "");
    RowsShown(c.outcomeMarkers, made.outcomeMarkers, (r: OutcomeMarkerRow) => Admits(r.dialectGate, ""),
      (r: OutcomeMarkerRow) => r.dialectGate == "");
    RowsShown(c.declaredValues, made.declaredValues, (r: DeclaredValueRow) => Admits(r.dialectGate, ""),
      (r: DeclaredValueRow) => r.dialectGate == "");
  }

  method AppendTransforms(before: string, rows: seq<Transform>) returns (out: string)
    ensures out == before + TableBytes(TransformBytes, rows)
  {
    hide WordBytes, TextBytes, TextsBytes, ByteBytes, LongBytes, EachRow, TableBytes;
    out := AppendSize(before, |rows|);
    ghost var counted := out;
    for i := 0 to |rows|
      invariant out + EachRow(TransformBytes, rows[i..]) == counted + EachRow(TransformBytes, rows)
    {
      ghost var start := out;
      out := AppendStr(out, rows[i].name);
      out := AppendU8(out, rows[i].kind);
      out := AppendU8(out, rows[i].extract);
      out := AppendSize(out, rows[i].prefixWidth);
      out := AppendU8(out, if rows[i].stripLeadingSpace then 1 else 0);
      assert out == start + TransformBytes(rows[i]) by { Reassociated(); }
      RowTurn(start, TransformBytes, rows, i);
    }
    RowsEnd(before, TransformBytes, rows);
    assert out + "" == out;
  }

  /** `compose`. */
  method ComposePackages(v: Versions, packages: seq<Manifest>) returns (composed: Semantics)
    requires NamesDistinct(packages)
    ensures composed == ViewOf(TablesOf(v, Canonical(packages)), "", "")
    ensures composed.all.preimage == PreimageOf(v, packages)
  {
    hide Flatten, Distinct, EachRow, ManifestBytes, VersionsBytes, Canonical, NamesDistinct, Filter, TextBytes, TableBytes;
    var order := Canonical(packages);
    var serialized := AppendStr("", v.grammar);
    serialized := AppendStr(serialized, v.canonicalization);
    serialized := AppendStr(serialized, v.catalog);
    serialized := AppendTransforms(serialized, v.transforms);
    var t := StartTables(v, serialized);
    var i := 0;
    while i < |order|
      invariant 0 <= i <= |order|
      invariant t == TablesOf(v, order[..i])
    {
      hide TablesOf;
      assert order[..i + 1] == order[..i] + [order[i]];
      t := AddPackage(v, order[..i], t, order[i]);
      i := i + 1;
    }
    assert order[..i] == order;
    composed := ViewOf(t, "", "");
  }

  method StartTables(v: Versions, serialized: string) returns (t: Tables)
    requires serialized == "" + TextBytes(v.grammar) + TextBytes(v.canonicalization) + TextBytes(v.catalog) +
                           TableBytes(TransformBytes, v.transforms)
    ensures t == TablesOf(v, [])
  {
    hide TextBytes, TableBytes;
    assert "" + TextBytes(v.grammar) == TextBytes(v.grammar);
    t := Tables([], [], [], [], [], [], [], [], [], [], [], [], [], serialized);
    assert serialized + "" == serialized;
  }

  /** The body of the package loop. */
  method AddPackage(v: Versions, ghost done: seq<Manifest>, t: Tables, pkg: Manifest) returns (next: Tables)
    requires t == TablesOf(v, done)
    ensures next == TablesOf(v, done + [pkg])
  {
    hide Flatten, Distinct, EachRow, ManifestBytes, VersionsBytes;
    TablesSnoc(v, done, pkg);
    var serialized := SerializeManifest(t.preimage, pkg);
    var channels := AddDistinct(t.channels, Flatten(ChannelsOf, done), pkg.channels);
    var keys := AddDistinct(t.declaredValueKeys, Flatten(KeysOf, done), Keys(pkg.declaredValues));
    next := Tables(t.roles + pkg.roles, t.markers + pkg.markers, t.levelLifts + pkg.levelLifts, t.locations + pkg.locations,
                   t.valueClasses + pkg.valueClasses, t.outcomeTokens + pkg.outcomeTokens,
                   t.outcomeMarkers + pkg.outcomeMarkers, channels, t.declaredValues + pkg.declaredValues, keys,
                   t.strategies + StrategyOf(pkg), t.provenanceHooks + HookIn(pkg), t.packages + PackageOf(pkg), serialized);
  }

  /** Composition does not depend on the order its caller lists the packages in: same tables, same views,
      same preimage. */
  lemma {:induction false} CompositionOrderFree(v: Versions, pkgs: seq<Manifest>, others: seq<Manifest>)
    requires NamesDistinct(pkgs) && NamesDistinct(others) && multiset(pkgs) == multiset(others)
    ensures TablesOf(v, Canonical(pkgs)) == TablesOf(v, Canonical(others))
    ensures PreimageOf(v, pkgs) == PreimageOf(v, others)
  {
    CanonicalIsUnique(pkgs, others);
  }

  /** Any number of views taken one from another. */
  function ViewRun(s: Semantics, declared: seq<(string, string)>): Option<Semantics>
    decreases |declared|
  {
    if declared == [] then Some(s)
    else
      var view :- ForStream(s, declared[0].0, declared[0].1);
      ViewRun(view, declared[1..])
  }

  /** Only the last declaration counts: a view of a view of a composition is a view of the composition. */
  lemma {:induction false} ViewsForget(s: Semantics, declared: seq<(string, string)>)
    requires declared != []
    ensures ViewRun(s, declared).Some? <==>
            forall i :: 0 <= i < |declared| ==> KnownDialect(s.all, declared[i].0) && KnownChannel(s.all, declared[i].1)
    ensures ViewRun(s, declared).Some? ==>
            ViewRun(s, declared) == ForStream(s, declared[|declared| - 1].0, declared[|declared| - 1].1)
    decreases |declared|
  {
    hide KnownDialect, KnownChannel, Filter;
    var view := ForStream(s, declared[0].0, declared[0].1);
    if view.Some? && |declared| > 1 {
      ViewsForget(view.value, declared[1..]);
      assert declared == [declared[0]] + declared[1..];
    }
  }

  /** `withholds_markers_for`: some marker of this view's dialect is held back by the channel gate alone. */
  predicate WithholdsMarkersFor(s: Semantics, channel: string) {
    exists i :: 0 <= i < |s.all.markers| &&
      Admits(s.all.markers[i].dialectGate, s.declaredDialect) && !Admits(s.all.markers[i].channelGate, channel)
  }

  /** Nothing is withheld for a channel exactly when its view shows every marker the dialect admits. */
  lemma {:induction false} WithholdsExactly(s: Semantics, channel: string)
    ensures !WithholdsMarkersFor(s, channel) <==>
            ViewOf(s.all, s.declaredDialect, channel).markers ==
            Filter((r: MarkerRow) => Admits(r.dialectGate, s.declaredDialect), s.all.markers)
  {
    var both := (r: MarkerRow) => Admits(r.dialectGate, s.declaredDialect) && Admits(r.channelGate, channel);
    var one := (r: MarkerRow) => Admits(r.dialectGate, s.declaredDialect);
    FilterWeaker(both, one, s.all.markers);
    assert ViewOf(s.all, s.declaredDialect, channel).markers == Filter(both, s.all.markers);
    if WithholdsMarkersFor(s, channel) {
      var i :| 0 <= i < |s.all.markers| && one(s.all.markers[i]) && !both(s.all.markers[i]);
    }
  }

  lemma {:induction false} FilterWeaker<T>(keep: T -> bool, more: T -> bool, xs: seq<T>)
    requires forall i :: 0 <= i < |xs| && keep(xs[i]) ==> more(xs[i])
    ensures |Filter(keep, xs)| <= |Filter(more, xs)|
    ensures Filter(keep, xs) == Filter(more, xs) <==> forall i :: 0 <= i < |xs| ==> keep(xs[i]) == more(xs[i])
  {
    if xs != [] {
      FilterWeaker(keep, more, xs[1..]);
      assert xs == [xs[0]] + xs[1..];
      if keep(xs[0]) != more(xs[0]) {
        assert |Filter(keep, xs)| < |Filter(more, xs)|;
      } else if keep(xs[0]) {
        assert Filter(keep, xs)[1..] == Filter(keep, xs[1..]);
        assert Filter(more, xs)[1..] == Filter(more, xs[1..]);
      }
    }
  }
}
