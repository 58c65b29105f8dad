/**
 The roles of a JSON record (compound_key_name and JsonRoleChoice in
 core/src/strategy/simdjson_scratch.hpp; role_of and JsonRecordSink in core/src/strategy/json.cpp), fed by
 the flat reader: each role goes to the string member of least rank, the earliest on ties, and each ordinal
 to the first number under its name.
 */
module JsonRoles {
  import opened Wrappers
  import opened Text
  import opened FlatJson
  import opened Decimal
  import opened DecimalScale

  // ----- names -----

  const ROLES: nat := 4
  const TIER_STRIDE: nat := 8
  const NO_RANK: nat := 255

  /** The vocabularies of the four roles: timestamp, level, component, message. */
  const VOCABULARIES: seq<seq<string>> := [
    ["timestamp", "ts", "@timestamp", "time", "datetime"],
    ["level", "severity", "loglevel", "log_level"],
    ["component", "source", "logger", "service", "module"],
    ["message", "msg", "log", "text", "body"]]

  function PositionIn(name: string, vocabulary: seq<string>): (p: Option<nat>)
    ensures p.Some? ==> p.value < |vocabulary| && vocabulary[p.value] == name
    ensures p.None? ==> name !in vocabulary
  {
    if vocabulary == [] then None
    else if vocabulary[0] == name then Some(0)
    else
      assert vocabulary == [vocabulary[0]] + vocabulary[1..];
      var p :- PositionIn(name, vocabulary[1..]);
      Some(p + 1)
  }

  datatype RoleName = RoleName(role: nat, position: nat)

  function RoleOf(name: string): (r: Option<RoleName>)
    ensures r.Some? ==> r.value.role < ROLES && r.value.position < TIER_STRIDE
    ensures r.Some? ==>
      r.value.position < |VOCABULARIES[r.value.role]| && VOCABULARIES[r.value.role][r.value.position] == name
    ensures r.None? ==> forall role :: 0 <= role < ROLES ==> name !in VOCABULARIES[role]
  {
    if PositionIn(name, VOCABULARIES[0]).Some? then Some(RoleName(0, PositionIn(name, VOCABULARIES[0]).value))
    else if PositionIn(name, VOCABULARIES[1]).Some? then Some(RoleName(1, PositionIn(name, VOCABULARIES[1]).value))
    else if PositionIn(name, VOCABULARIES[2]).Some? then Some(RoleName(2, PositionIn(name, VOCABULARIES[2]).value))
    else if PositionIn(name, VOCABULARIES[3]).Some? then Some(RoleName(3, PositionIn(name, VOCABULARIES[3]).value))
    else None
  }

  function FindDot(key: string, at: nat): (r: nat)
    requires at <= |key|
    ensures at <= r <= |key| && (r < |key| ==> key[r] == '.') && '.' !in key[at..(r)]
    decreases |key| - at
  {
    if at == |key| || key[at] == '.' then at
    else
      var r := FindDot(key, at + 1);
      assert key[at..r] == [key[at]] + key[at + 1..r];
      r
  }

  /** `compound_key_name`: a key without a dot is itself, one dot leaves what follows it, more leave nothing. */
  function CompoundKeyName(key: string): string {
    var dot := FindDot(key, 0);
    if dot == |key| then key
    else
      var tail := key[dot + 1..];
      if FindDot(tail, 0) < |tail| then "" else tail
  }

  lemma {:induction false} FindDotExact(s: string, at: nat, k: nat)
    requires at <= k <= |s| && (k < |s| ==> s[k] == '.') && forall i :: at <= i < k ==> s[i] != '.'
    ensures FindDot(s, at) == k
    decreases k - at
  {
    if at < k {
      FindDotExact(s, at + 1, k);
    }
  }

  predicate Dotless(s: string) {
    forall i :: 0 <= i < |s| ==> s[i] != '.'
  }

  /** A key without a dot is itself; one dot leaves the name after it; more leave nothing. */
  lemma {:induction false} CompoundKeyNameIs(prefix: string, name: string, more: string)
    requires Dotless(prefix) && Dotless(name)
    ensures CompoundKeyName(name) == name
    ensures CompoundKeyName(prefix + "." + name) == name
    ensures CompoundKeyName(prefix + "." + name + "." + more) == ""
  {
    FindDotExact(name, 0, |name|);
    var one, two := prefix + "." + name, prefix + "." + name + "." + more;
    FindDotExact(one, 0, |prefix|);
    assert one[|prefix| + 1..] == name;
    FindDotExact(two, 0, |prefix|);
    assert two[|prefix| + 1..] == name + "." + more;
    FindDotExact(name + "." + more, 0, |name|);
  }

  /** The name is the whole key exactly when the key has no dot, which is how the sink tells the tiers apart. */
  lemma {:induction false} TierTest(key: string)
    ensures |CompoundKeyName(key)| == |key| <==> Dotless(key)
  {
    assert key[0..|key|] == key;
    if Dotless(key) {
      FindDotExact(key, 0, |key|);
    }
  }

  /** A member's rank for a role: an exact name before every compound spelling, then the vocabulary's order.
      Only strings offer. */
  function RankFor(m: Member, role: nat): (r: Option<nat>)
    ensures r.Some? ==> r.value < 2 * TIER_STRIDE
  {
    if !m.scalar.kind.StringScalar? then None
    else
      var name := CompoundKeyName(m.key);
      var found := RoleOf(name);
      if found.None? || found.value.role != role then None
      else Some((if |name| == |m.key| then 0 else TIER_STRIDE) + found.value.position)
  }

  /** The names are all different, so a name has one role and one place. */
  lemma {:induction false} NamesAreDistinct(role: nat, position: nat, other: nat, place: nat)
    requires role < ROLES && position < |VOCABULARIES[role]| && other < ROLES && place < |VOCABULARIES[other]|
    requires VOCABULARIES[role][position] == VOCABULARIES[other][place]
    ensures role == other && position == place
  {
    NameLength(role, position);
    NameLength(other, place);
  }

  lemma {:induction false} NameLength(role: nat, position: nat)
    requires role < ROLES && position < |VOCABULARIES[role]|
    ensures Dotless(VOCABULARIES[role][position])
  {
  }

  /** The rank of a string member: under the exact name its place in that role's list, under a compound key
      that place past every exact one, and under any other key or role none. */
  lemma {:induction false} RankIs(role: nat, position: nat, prefix: string, text: string, asked: nat)
    requires role < ROLES && position < |VOCABULARIES[role]| && Dotless(prefix)
    ensures var name := VOCABULARIES[role][position];
      && RankFor(Member(name, Scalar(StringScalar, text)), asked) == (if asked == role then Some(position) else None)
      && RankFor(Member(prefix + "." + name, Scalar(StringScalar, text)), asked) ==
         (if asked == role then Some(TIER_STRIDE + position) else None)
  {
    hide CompoundKeyName, RoleOf;
    var name := VOCABULARIES[role][position];
    NameLength(role, position);
    CompoundKeyNameIs(prefix, name, "");
    assert name in VOCABULARIES[role];
    var found := RoleOf(name).value;
    NamesAreDistinct(role, position, found.role, found.position);
  }

  lemma {:induction false} NoRankOutside(m: Member, asked: nat)
    requires !m.scalar.kind.StringScalar? || forall role :: 0 <= role < ROLES ==> CompoundKeyName(m.key) !in VOCABULARIES[role]
    ensures RankFor(m, asked) == None
  {
    hide CompoundKeyName, RoleOf;
  }

  // ----- choices -----

  datatype Choice = Choice(value: string, rank: nat)

  const UNCHOSEN := Choice("", NO_RANK)

  /** `JsonRoleChoice::offer`. */
  function Offered(c: Choice, rank: nat, value: string): Choice {
    if rank < c.rank then Choice(value, rank) else c
  }

  /** One role's choice after a list of members. */
  function ChoiceAfter(ms: seq<Member>, role: nat): Choice {
    if ms == [] then UNCHOSEN
    else
      var n := |ms| - 1;
      var before := ChoiceAfter(ms[..n], role);
      match RankFor(ms[n], role)
      case None => before
      case Some(rank) => Offered(before, rank, ms[n].scalar.text)
  }

  /** The member of least rank, the first on ties. */
  ghost predicate Best(ms: seq<Member>, role: nat, k: nat) {
    && k < |ms| && RankFor(ms[k], role).Some?
    && forall j :: 0 <= j < |ms| && RankFor(ms[j], role).Some? ==>
         var best, other := RankFor(ms[k], role).value, RankFor(ms[j], role).value;
         best <= other && (j < k ==> best < other)
  }

  predicate NoOffer(ms: seq<Member>, role: nat) {
    forall j :: 0 <= j < |ms| ==> RankFor(ms[j], role).None?
  }

  /** The incremental choice is the best member of the whole list, or nothing when none offers. */
  lemma {:induction false} ChoiceIsBest(ms: seq<Member>, role: nat) returns (k: nat)
    ensures NoOffer(ms, role) ==> ChoiceAfter(ms, role) == UNCHOSEN
    ensures !NoOffer(ms, role) ==> Best(ms, role, k) && ChoiceAfter(ms, role) == Choice(ms[k].scalar.text, RankFor(ms[k], role).value)
    decreases |ms|
  {
    hide RankFor;
    k := 0;
    if ms != [] {
      var n := |ms| - 1;
      var init := ms[..n];
      assert forall j :: 0 <= j < n ==> init[j] == ms[j];
      k := ChoiceIsBest(init, role);
      if RankFor(ms[n], role).Some? && (NoOffer(init, role) || RankFor(ms[n], role).value < RankFor(init[k], role).value) {
        k := n;
      }
    }
  }

  lemma {:induction false} BestIsUnique(ms: seq<Member>, role: nat, j: nat, k: nat)
    requires Best(ms, role, j) && Best(ms, role, k)
    ensures j == k
  {
    hide RankFor;
  }

  lemma {:induction false} ChoiceSnoc(ms: seq<Member>, m: Member, role: nat)
    ensures ChoiceAfter(ms + [m], role) ==
            match RankFor(m, role)
            case None => ChoiceAfter(ms, role)
            case Some(rank) => Offered(ChoiceAfter(ms, role), rank, m.scalar.text)
  {
    hide RankFor;
    assert (ms + [m])[..|ms|] == ms;
  }

  /** Inserting a member that names no role, wherever it stands, moves no choice. */
  lemma {:induction false} UnrelatedMovesNothing(a: seq<Member>, m: Member, b: seq<Member>, role: nat)
    requires RankFor(m, role).None?
    ensures ChoiceAfter(a + [m] + b, role) == ChoiceAfter(a + b, role)
    decreases |b|
  {
    hide RankFor;
    if b == [] {
      ChoiceSnoc(a, m, role);
      assert a + [m] + b == a + [m] && a + b == a;
    } else {
      var n := |b| - 1;
      UnrelatedMovesNothing(a, m, b[..n], role);
      ChoiceSnoc(a + [m] + b[..n], b[n], role);
      ChoiceSnoc(a + b[..n], b[n], role);
      assert a + [m] + b == a + [m] + b[..n] + [b[n]];
      assert a + b == a + b[..n] + [b[n]];
    }
  }

  /** A compound key can add a role and never move one: inserted beside an exact name it changes nothing. */
  lemma {:induction false} CompoundNeverMoves(a: seq<Member>, m: Member, b: seq<Member>, role: nat)
    requires RankFor(m, role).Some? && RankFor(m, role).value >= TIER_STRIDE
    requires ChoiceAfter(a + b, role).rank < TIER_STRIDE
    ensures ChoiceAfter(a + [m] + b, role) == ChoiceAfter(a + b, role)
  {
    CompoundJoins(a, m, b, role);
  }

  lemma {:induction false} CompoundJoins(a: seq<Member>, m: Member, b: seq<Member>, role: nat)
    requires RankFor(m, role).Some? && RankFor(m, role).value >= TIER_STRIDE
    ensures ChoiceAfter(a + b, role).rank < TIER_STRIDE ==> ChoiceAfter(a + [m] + b, role) == ChoiceAfter(a + b, role)
    ensures ChoiceAfter(a + b, role).rank >= TIER_STRIDE ==> ChoiceAfter(a + [m] + b, role).rank >= TIER_STRIDE
    decreases |b|
  {
    hide RankFor;
    if b == [] {
      ChoiceSnoc(a, m, role);
      assert a + [m] + b == a + [m] && a + b == a;
    } else {
      var n := |b| - 1;
      CompoundJoins(a, m, b[..n], role);
      ChoiceSnoc(a + [m] + b[..n], b[n], role);
      ChoiceSnoc(a + b[..n], b[n], role);
      assert a + [m] + b == a + [m] + b[..n] + [b[n]];
      assert a + b == a + b[..n] + [b[n]];
    }
  }

  // ----- ordinals -----

  /** The catalogue's numeric fields: name, and the power of ten its unit is scaled by. */
  const ORDINALS: seq<(string, nat)> := [
    ("span_duration_ns", 0), ("latency_ms", 6), ("duration_ms", 6), ("elapsed_ms", 6), ("response_time_ms", 6),
    ("latency_us", 3), ("duration_us", 3), ("latency_ns", 0), ("duration_ns", 0), ("duration_seconds", 9),
    ("elapsed_seconds", 9), ("response_bytes", 0), ("request_bytes", 0), ("size_bytes", 0), ("payload_bytes", 0)]

  const FIELDS: nat := 15

  /** `match_ordinal_field`, as an index of the catalogue. */
  function OrdinalIndex(key: string, from: nat): (i: Option<nat>)
    requires from <= FIELDS
    ensures i.Some? ==> from <= i.value < FIELDS && ORDINALS[i.value].0 == key
    decreases FIELDS - from
  {
    if from == FIELDS then None else if ORDINALS[from].0 == key then Some(from) else OrdinalIndex(key, from + 1)
  }

  predicate Names(m: Member, field: nat) {
    m.scalar.kind.NumberScalar? && OrdinalIndex(m.key, 0) == Some(field)
  }

  /** The first number a list holds under a field's name. */
  function FirstNumber(ms: seq<Member>, field: nat): Option<string> {
    if ms == [] then None
    else
      var n := |ms| - 1;
      var before := FirstNumber(ms[..n], field);
      if before.Some? then before else if Names(ms[n], field) then Some(ms[n].scalar.text) else None
  }

  /** A number under the field's own name. */
  predicate NumberNamed(m: Member, field: nat)
    requires field < FIELDS
  {
    m.scalar.kind.NumberScalar? && m.key == ORDINALS[field].0
  }

  lemma {:induction false} FieldsDiffer(f: nat, g: nat)
    requires f < FIELDS && g < FIELDS && ORDINALS[f].0 == ORDINALS[g].0
    ensures f == g
  {
    var a, b := ORDINALS[f].0, ORDINALS[g].0;
    assert |a| == |b| && a[0] == b[0] && a[|a| - 2] == b[|b| - 2];
  }

  lemma {:induction false} IndexFound(key: string, from: nat, field: nat)
    requires from <= field < FIELDS && ORDINALS[field].0 == key
    ensures OrdinalIndex(key, from).Some?
    decreases FIELDS - from
  {
    if from < field {
      IndexFound(key, from + 1, field);
    }
  }

  lemma {:induction false} NamesIs(m: Member, field: nat)
    requires field < FIELDS
    ensures Names(m, field) <==> NumberNamed(m, field)
  {
    hide OrdinalIndex;
    if m.key == ORDINALS[field].0 {
      IndexFound(m.key, 0, field);
      FieldsDiffer(OrdinalIndex(m.key, 0).value, field);
    }
  }

  lemma {:induction false} FirstNamed(ms: seq<Member>, field: nat)
    ensures FirstNumber(ms, field).None? <==> forall j :: 0 <= j < |ms| ==> !Names(ms[j], field)
    ensures forall k :: 0 <= k < |ms| && Names(ms[k], field) && (forall j :: 0 <= j < k ==> !Names(ms[j], field)) ==>
              FirstNumber(ms, field) == Some(ms[k].scalar.text)
  {
    hide Names;
    if ms != [] {
      var before := ms[..|ms| - 1];
      FirstNamed(before, field);
      assert forall j :: 0 <= j < |before| ==> before[j] == ms[j];
    }
  }

  /** A field takes the text of the first number under its name, and nothing when there is none. */
  lemma {:induction false} FirstNumberIs(ms: seq<Member>, field: nat)
    requires field < FIELDS
    ensures FirstNumber(ms, field).None? <==> forall j :: 0 <= j < |ms| ==> !NumberNamed(ms[j], field)
    ensures forall k :: 0 <= k < |ms| && NumberNamed(ms[k], field) && (forall j :: 0 <= j < k ==> !NumberNamed(ms[j], field)) ==>
              FirstNumber(ms, field) == Some(ms[k].scalar.text)
  {
    hide Names, NumberNamed, FirstNumber;
    FirstNamed(ms, field);
    forall j | 0 <= j < |ms|
      ensures Names(ms[j], field) <==> NumberNamed(ms[j], field)
    {
      NamesIs(ms[j], field);
    }
  }

  function OrdinalValue(text: Option<string>, field: nat): Option<int>
    requires field < FIELDS
  {
    match text
    case None => None
    case Some(t) => DecimalScaled(t, Pow10(ORDINALS[field].1))
  }

  // ----- the sink -----

  /** What the sink declines: the span members another reader owns. */
  predicate IsOtelMember(key: string) {
    key in ["timeUnixNano", "startTimeUnixNano", "traceId", "spanId", "parentSpanId", "severityNumber"]
  }

  function PresentCount(values: seq<Option<int>>): nat {
    if values == [] then 0 else PresentCount(values[..|values| - 1]) + (if values[|values| - 1].Some? then 1 else 0)
  }

  lemma {:induction false} PresentUpdate(values: seq<Option<int>>, i: nat, v: Option<int>)
    requires i < |values| && values[i].None?
    ensures PresentCount(values[i := v]) == PresentCount(values) + (if v.Some? then 1 else 0)
  {
    var n := |values| - 1;
    if i == n {
      assert values[i := v][..n] == values[..n];
    } else {
      assert values[i := v][..n] == values[..n][i := v];
      PresentUpdate(values[..n], i, v);
    }
  }

  class JsonRecordSink {
    var choices: seq<Choice>
    var ordinalSeen: seq<bool>
    var ordinalValues: seq<Option<int>>
    var ordinalCount: nat
    /** The members accepted so far. */
    ghost var accepted: seq<Member>

    /** The state is the declarative reading of the members accepted. */
    ghost predicate Valid()
      reads this
    {
      && |choices| == ROLES && |ordinalSeen| == FIELDS && |ordinalValues| == FIELDS
      && (forall role :: 0 <= role < ROLES ==> choices[role] == ChoiceAfter(accepted, role))
      && (forall f :: 0 <= f < FIELDS ==> ordinalSeen[f] == FirstNumber(accepted, f).Some?)
      && (forall f :: 0 <= f < FIELDS ==> ordinalValues[f] == OrdinalValue(FirstNumber(accepted, f), f))
      && ordinalCount == PresentCount(ordinalValues)
    }

    constructor ()
      ensures Valid() && accepted == []
    {
      choices := seq(ROLES, i => UNCHOSEN);
      ordinalSeen := seq(FIELDS, i => false);
      ordinalValues := seq(FIELDS, i => None);
      ordinalCount := 0;
      accepted := [];
      new;
      NothingPresent(ordinalValues);
    }

    /** `offer`: the role the name carries takes the value when its rank is lower. */
    method Offer(name: string, tier: nat, value: string)
      requires |choices| == ROLES
      modifies this`choices
      ensures |choices| == ROLES
      ensures forall role :: 0 <= role < ROLES ==>
        choices[role] == match RoleOf(name)
                         case None => old(choices)[role]
                         case Some(r) => if r.role == role then Offered(old(choices)[role], tier * TIER_STRIDE + r.position, value)
                                         else old(choices)[role]
    {
      var found := RoleOf(name);
      if found.Some? {
        var role := found.value.role;
        choices := choices[role := Offered(choices[role], tier * TIER_STRIDE + found.value.position, value)];
      }
    }

    /** `capture_ordinal`: only the first number under a catalogue name is read. */
    method CaptureOrdinal(key: string, text: string)
      requires |ordinalSeen| == FIELDS && |ordinalValues| == FIELDS && ordinalCount == PresentCount(ordinalValues)
      requires forall f :: 0 <= f < FIELDS && !ordinalSeen[f] ==> ordinalValues[f].None?
      modifies this`ordinalSeen, this`ordinalValues, this`ordinalCount
      ensures ordinalCount == PresentCount(ordinalValues)
      ensures match OrdinalIndex(key, 0)
              case None => ordinalSeen == old(ordinalSeen) && ordinalValues == old(ordinalValues)
              case Some(f) =>
                if old(ordinalSeen)[f] then ordinalSeen == old(ordinalSeen) && ordinalValues == old(ordinalValues)
                else ordinalSeen == old(ordinalSeen)[f := true] &&
                     ordinalValues == old(ordinalValues)[f := DecimalScaled(text, Pow10(ORDINALS[f].1))]
    {
      hide PresentCount, DecimalScaled, Pow10;
      var index := OrdinalIndex(key, 0);
      if index.None? {
        return;
      }
      var f := index.value;
      if ordinalSeen[f] {
        return;
      }
      var value := ParseDecimalScaled(text, Pow10(ORDINALS[f].1));
      PresentUpdate(ordinalValues, f, value);
      ordinalSeen := ordinalSeen[f := true];
      ordinalValues := ordinalValues[f := value];
      if value.Some? {
        ordinalCount := ordinalCount + 1;
      }
    }

    /** `member`: false, and nothing kept, for a member it declines. */
    method TakeMember(m: Member) returns (ok: bool)
      requires Valid()
      modifies this
      ensures Valid() && ok == !IsOtelMember(m.key)
      ensures accepted == if ok then old(accepted) + [m] else old(accepted)
    {
      hide PresentCount, RoleOf, CompoundKeyName, OrdinalIndex, ChoiceAfter, FirstNumber, OrdinalValue, Offered, DecimalScaled;
      if IsOtelMember(m.key) {
        return false;
      }
      if m.scalar.kind.NumberScalar? {
        OrdinalsStep(accepted, m);
        CaptureOrdinal(m.key, m.scalar.text);
      } else if m.scalar.kind.StringScalar? {
        var name := CompoundKeyName(m.key);
        Offer(name, if |name| == |m.key| then 0 else 1, m.scalar.text);
      }
      NumbersStep(accepted, m);
      ChoicesStep(accepted, m);
      accepted := accepted + [m];
      return true;
    }
  }

  lemma {:induction false} NothingPresent(values: seq<Option<int>>)
    requires forall i :: 0 <= i < |values| ==> values[i].None?
    ensures PresentCount(values) == 0
  {
    if values != [] {
      NothingPresent(values[..|values| - 1]);
    }
  }

  lemma {:induction false} ChoicesStep(ms: seq<Member>, m: Member)
    ensures forall role :: 0 <= role < ROLES ==>
      ChoiceAfter(ms + [m], role) ==
      if !m.scalar.kind.StringScalar? then ChoiceAfter(ms, role)
      else
        var name := CompoundKeyName(m.key);
        match RoleOf(name)
        case None => ChoiceAfter(ms, role)
        case Some(r) =>
          if r.role == role
          then Offered(ChoiceAfter(ms, role), (if |name| == |m.key| then 0 else 1) * TIER_STRIDE + r.position, m.scalar.text)
          else ChoiceAfter(ms, role)
  {
    forall role | 0 <= role < ROLES
      ensures ChoiceAfter(ms + [m], role) ==
              match RankFor(m, role)
              case None => ChoiceAfter(ms, role)
              case Some(rank) => Offered(ChoiceAfter(ms, role), rank, m.scalar.text)
    {
      ChoiceSnoc(ms, m, role);
    }
    hide ChoiceAfter, Offered, RoleOf, CompoundKeyName;
  }

  lemma {:induction false} NumbersStep(ms: seq<Member>, m: Member)
    ensures forall f :: 0 <= f < FIELDS ==>
      FirstNumber(ms + [m], f) ==
      if FirstNumber(ms, f).Some? then FirstNumber(ms, f)
      else if m.scalar.kind.NumberScalar? && OrdinalIndex(m.key, 0) == Some(f) then Some(m.scalar.text)
      else None
  {
    hide OrdinalIndex;
    assert (ms + [m])[..|ms|] == ms;
  }

  lemma {:induction false} OrdinalsStep(ms: seq<Member>, m: Member)
    ensures forall f :: 0 <= f < FIELDS ==> (FirstNumber(ms, f).None? ==> OrdinalValue(FirstNumber(ms, f), f).None?)
    ensures forall f, t :: 0 <= f < FIELDS ==> OrdinalValue(Some(t), f) == DecimalScaled(t, Pow10(ORDINALS[f].1))
  {
    hide FirstNumber, DecimalScaled;
  }

  // ----- feeding the sink -----

  /** `extract_json_str`. */
  method ExtractString(line: string, start: nat) returns (end: Option<nat>)
    requires start <= |line|
    ensures end == StringEnd(line, start)
  {
    if start >= |line| || line[start] != '"' {
      return None;
    }
    var pos := start + 1;
    while pos < |line|
      invariant start + 1 <= pos <= |line| && RunEnd(line, pos, Plain) == RunEnd(line, start + 1, Plain)
    {
      if line[pos] == '\\' {
        return None;
      }
      if line[pos] == '"' {
        return Some(pos + 1);
      }
      pos := pos + 1;
    }
    return None;
  }

  /** `consume_json_value`, up to the report. */
  method ConsumeValue(line: string, pos: nat) returns (v: Option<(Scalar, nat)>)
    requires pos < |line|
    ensures v == ValueAt(line, pos)
  {
    hide Every, StringEnd;
    var c := line[pos];
    if c == '"' {
      var end := ExtractString(line, pos);
      if end.None? {
        return None;
      }
      return Some((Scalar(StringScalar, line[pos + 1..end.value - 1]), end.value));
    }
    if Digit(c) || c == '-' {
      var end := SkipRun(line, pos, NumberChar);
      return Some((Scalar(NumberScalar, line[pos..end]), end));
    }
    if c == 't' || c == 'f' || c == 'n' {
      var end := SkipRun(line, pos, Lower);
      return Some((Scalar(LiteralScalar, line[pos..end]), end));
    }
    return None;
  }

  /** `process_json_kv`, up to the report. */
  method ReadKeyValue(line: string, pos: nat) returns (m: Option<(Member, nat)>)
    requires pos < |line|
    ensures m == KeyValueAt(line, pos)
  {
    hide Every, StringEnd, ValueAt, RunEnd;
    var keyEnd := ExtractString(line, pos);
    if keyEnd.None? {
      return None;
    }
    var colon := SkipRun(line, keyEnd.value, InlineBlank);
    if colon >= |line| || line[colon] != ':' {
      return None;
    }
    var valueAt := SkipRun(line, colon + 1, InlineBlank);
    if valueAt >= |line| {
      return None;
    }
    var v := ConsumeValue(line, valueAt);
    if v.None? {
      return None;
    }
    return Some((Member(line[pos + 1..keyEnd.value - 1], v.value.0), v.value.1));
  }

  predicate NoneDeclined(ms: seq<Member>) {
    forall i :: 0 <= i < |ms| ==> !IsOtelMember(ms[i].key)
  }

  predicate Continues(whole: Option<seq<Member>>, read: seq<Member>, rest: Option<seq<Member>>) {
    whole == match rest case None => None case Some(ms) => Some(read + ms)
  }

  lemma {:induction false} BodyTurn(line: string, pos: nat)
    requires pos <= |line|
    ensures var at := RunEnd(line, pos, Whitespace);
      BodyAt(line, pos) ==
      if at == |line| then None
      else if line[at] == '}' then Some([])
      else if line[at] == ',' then BodyAt(line, at + 1)
      else
        match KeyValueAt(line, at)
        case None => None
        case Some(read) =>
          match BodyAt(line, read.1)
          case None => None
          case Some(rest) => Some([read.0] + rest)
  {
    hide KeyValueAt, RunEnd, Every;
  }

  lemma {:induction false} ContinuesOn(whole: Option<seq<Member>>, read: seq<Member>, m: Member, rest: Option<seq<Member>>)
    requires Continues(whole, read, match rest case None => None case Some(ms) => Some([m] + ms))
    ensures Continues(whole, read + [m], rest)
    ensures whole.Some? ==> m in whole.value
  {
    if rest.Some? {
      assert read + ([m] + rest.value) == (read + [m]) + rest.value;
      assert ((read + [m]) + rest.value)[|read|] == m;
    }
  }

  /** `scan_flat_json` into the record's sink: it succeeds exactly on flat objects without a declined member,
      and then the sink has taken every member in order. */
  method ScanFlatJson(line: string, sink: JsonRecordSink) returns (ok: bool)
    requires sink.Valid()
    modifies sink
    ensures sink.Valid()
    ensures ok <==> FlatObject(line).Some? && NoneDeclined(FlatObject(line).value)
    ensures ok ==> sink.accepted == old(sink.accepted) + FlatObject(line).value
  {
    hide Every, BodyAt, RunEnd;
    var pos := SkipRun(line, 0, InlineBlank);
    if pos >= |line| || line[pos] != '{' {
      return false;
    }
    ok := ScanBody(line, pos + 1, sink);
  }

  /** The member loop, from past the opening brace. */
  method ScanBody(line: string, start: nat, sink: JsonRecordSink) returns (ok: bool)
    requires start <= |line| && sink.Valid()
    modifies sink
    ensures sink.Valid()
    ensures ok <==> BodyAt(line, start).Some? && NoneDeclined(BodyAt(line, start).value)
    ensures ok ==> sink.accepted == old(sink.accepted) + BodyAt(line, start).value
  {
    hide Every, KeyValueAt, BodyAt, RunEnd, IsOtelMember, Continues, NoneDeclined, JsonRecordSink.Valid;
    var pos := start;
    ghost var read: seq<Member> := [];
    ghost var whole := BodyAt(line, start);
    Started(whole);
    assert sink.accepted + [] == sink.accepted;
    while true
      invariant pos <= |line| && sink.Valid()
      invariant Continues(whole, read, BodyAt(line, pos))
      invariant NoneDeclined(read) && sink.accepted == old(sink.accepted) + read
      decreases |line| - pos
    {
      BodyTurn(line, pos);
      ContinuesEnds(whole, read, BodyAt(line, pos));
      pos := SkipRun(line, pos, Whitespace);
      if pos >= |line| {
        return false;
      }
      if line[pos] == '}' {
        return true;
      }
      if line[pos] == ',' {
        pos := pos + 1;
        continue;
      }
      var m := ReadKeyValue(line, pos);
      if m.None? {
        return false;
      }
      ContinuesOn(whole, read, m.value.0, BodyAt(line, m.value.1));
      var taken := sink.TakeMember(m.value.0);
      Declined(whole, m.value.0);
      if !taken {
        return false;
      }
      DeclinedSnoc(read, m.value.0);
      read := read + [m.value.0];
      pos := m.value.1;
    }
  }

  lemma {:induction false} Started(rest: Option<seq<Member>>)
    ensures Continues(rest, [], rest) && NoneDeclined([])
  {
    if rest.Some? {
      assert [] + rest.value == rest.value;
    }
  }

  lemma {:induction false} ContinuesEnds(whole: Option<seq<Member>>, read: seq<Member>, rest: Option<seq<Member>>)
    requires Continues(whole, read, rest)
    ensures rest.None? ==> whole.None?
    ensures rest == Some([]) ==> whole == Some(read)
  {
    assert read + [] == read;
  }

  lemma {:induction false} Declined(whole: Option<seq<Member>>, m: Member)
    requires whole.Some? ==> m in whole.value
    ensures whole.Some? && NoneDeclined(whole.value) ==> !IsOtelMember(m.key)
  {
    hide IsOtelMember;
  }

  lemma {:induction false} DeclinedSnoc(read: seq<Member>, m: Member)
    requires NoneDeclined(read) && !IsOtelMember(m.key)
    ensures NoneDeclined(read + [m])
  {
    hide IsOtelMember;
  }
}
