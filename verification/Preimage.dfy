/**
 The identity preimage of a composed ruleset (append_* and serialize_manifest in
 core/src/compose/compose.cpp): every string length-prefixed, every integer fixed-width little-endian.
 A decoder inverts it when all sizes are below 2^32. A byte is a `char` whose code is below 256.
 */
module Preimage {
  import Bits
  import opened Wrappers

  const WORD: nat := 0x1_0000_0000
  const LONG: int := 0x1_0000_0000_0000_0000
  const LONG_HALF: int := 0x8000_0000_0000_0000

  type u8 = x: int | 0 <= x < 256
  type i64 = x: int | -0x8000_0000_0000_0000 <= x < 0x8000_0000_0000_0000

  // ----- integers -----

  /** The low `n` bytes of `v`, lowest first. */
  function LittleEndian(v: nat, n: nat): (s: string)
    ensures |s| == n
  {
    if n == 0 then "" else [(v % 256) as char] + LittleEndian(v / 256, n - 1)
  }

  function FromLittleEndian(s: string): nat {
    if s == "" then 0 else s[0] as int + 256 * FromLittleEndian(s[1..])
  }

  function Power256(n: nat): (p: nat)
    ensures p > 0
  {
    if n == 0 then 1 else 256 * Power256(n - 1)
  }

  lemma {:induction false} LittleEndianBack(v: nat, n: nat)
    requires v < Power256(n)
    ensures FromLittleEndian(LittleEndian(v, n)) == v
  {
    if n > 0 {
      LittleEndianBack(v / 256, n - 1);
      assert LittleEndian(v, n)[1..] == LittleEndian(v / 256, n - 1);
    }
  }

  lemma {:induction false} Widths()
    ensures Power256(4) == WORD && Power256(8) == LONG
  {
    assert Power256(2) == 0x1_0000 && Power256(4) == 256 * (256 * Power256(2));
    assert Power256(6) == 256 * (256 * Power256(4)) && Power256(8) == 256 * (256 * Power256(6));
  }

  function ByteBytes(v: u8): string {
    [v as char]
  }

  function WordBytes(v: nat): string {
    LittleEndian(v % WORD, 4)
  }

  function LongBytes(v: i64): string {
    LittleEndian(v % LONG, 8)
  }

  function TextBytes(s: string): string {
    WordBytes(|s|) + s
  }

  function EachText(ss: seq<string>): string {
    if ss == [] then "" else TextBytes(ss[0]) + EachText(ss[1..])
  }

  function TextsBytes(ss: seq<string>): string {
    WordBytes(|ss|) + EachText(ss)
  }

  /** The shift loop of `append_u32_le` and `append_i64_le`. */
  method AppendLittleEndian(before: string, value: nat, bytes: nat) returns (out: string)
    ensures out == before + LittleEndian(value, bytes)
  {
    out := before;
    var i := 0;
    ghost var rest := value;
    assert Bits.Pow2(0) == 1;
    while i < bytes
      invariant 0 <= i <= bytes
      invariant rest == value / Bits.Pow2(8 * i)
      invariant out + LittleEndian(rest, bytes - i) == before + LittleEndian(value, bytes)
    {
      ShiftByte(value, 8 * i);
      out := out + [(value / Bits.Pow2(8 * i) % 256) as char];
      rest := rest / 256;
      i := i + 1;
    }
    assert out + "" == out;
  }

  lemma {:induction false} ShiftByte(value: nat, k: nat)
    ensures value / Bits.Pow2(k) / 256 == value / Bits.Pow2(k + 8) && value / Bits.Pow2(k) >= 0
  {
    Bits.Pow2Add(k, 8);
    assert Bits.Pow2(8) == 256 by {
      Bits.Pow2Add(4, 4);
      assert Bits.Pow2(4) == 16;
    }
    hide Bits.Pow2;
    var p := Bits.Pow2(k);
    var q, r := value / p, value % p;
    assert value == p * q + r;
    var q', r' := q / 256, q % 256;
    assert p * (256 * q' + r') == (p * 256) * q' + p * r';
    Bits.MulMonotone(p, r', 255);
    Bits.MulMonotone(p, 0, r');
    Bits.QuotientIs(value, p * 256, q', p * r' + r);
    if q < 0 {
      Bits.MulMonotone(p, q, -1);
    }
  }

  method AppendU8(before: string, value: u8) returns (out: string)
    ensures out == before + ByteBytes(value)
  {
    out := before + [value as char];
  }

  method AppendU32Le(before: string, value: nat) returns (out: string)
    requires value < WORD
    ensures out == before + LittleEndian(value, 4)
  {
    out := AppendLittleEndian(before, value, 4);
  }

  method AppendI64Le(before: string, value: i64) returns (out: string)
    ensures out == before + LongBytes(value)
  {
    out := AppendLittleEndian(before, value % LONG, 8);
  }

  /** A size, cast to 32 bits. */
  method AppendSize(before: string, size: nat) returns (out: string)
    ensures out == before + WordBytes(size)
  {
    hide LittleEndian;
    out := AppendU32Le(before, size % WORD);
  }

  method AppendStr(before: string, s: string) returns (out: string)
    ensures out == before + TextBytes(s)
  {
    hide LittleEndian, WordBytes;
    out := AppendSize(before, |s|);
    Associates(before, WordBytes(|s|), s);
    out := out + s;
  }

  method AppendStrSpan(before: string, ss: seq<string>) returns (out: string)
    ensures out == before + TextsBytes(ss)
  {
    hide LittleEndian, TextBytes, WordBytes;
    out := AppendSize(before, |ss|);
    ghost var counted := out;
    var i := 0;
    while i < |ss|
      invariant 0 <= i <= |ss|
      invariant out + EachText(ss[i..]) == counted + EachText(ss)
    {
      assert ss[i..][1..] == ss[i + 1..];
      Associates(out, TextBytes(ss[i]), EachText(ss[i + 1..]));
      out := AppendStr(out, ss[i]);
      i := i + 1;
    }
    assert out + "" == out;
    Associates(before, WordBytes(|ss|), EachText(ss));
  }

  lemma {:induction false} Associates(a: string, b: string, c: string)
    ensures (a + b) + c == a + (b + c)
  {
  }

  lemma {:induction false} Reassociated()
    ensures forall a: string, b: string, c: string {:trigger (a + b) + c} :: (a + b) + c == a + (b + c)
  {
  }

  // ----- reading back -----

  function ReadByte(s: string): Option<(u8, string)> {
    if s == "" || s[0] as int >= 256 then None else Some((s[0] as int, s[1..]))
  }

  function ReadWord(s: string): Option<(nat, string)> {
    if |s| < 4 then None else Some((FromLittleEndian(s[..4]), s[4..]))
  }

  function ReadLong(s: string): Option<(i64, string)> {
    if |s| < 8 then None
    else
      var v := FromLittleEndian(s[..8]);
      if v >= LONG then None else Some((if v >= LONG_HALF then v - LONG else v, s[8..]))
  }

  function ReadText(s: string): Option<(string, string)> {
    var (n, t) :- ReadWord(s);
    if |t| < n then None else Some((t[..n], t[n..]))
  }

  function ReadEachText(n: nat, s: string): Option<(seq<string>, string)>
    decreases n
  {
    if n == 0 then Some(([], s))
    else
      var (x, t) :- ReadText(s);
      var (xs, u) :- ReadEachText(n - 1, t);
      Some(([x] + xs, u))
  }

  function ReadTexts(s: string): Option<(seq<string>, string)> {
    var (n, t) :- ReadWord(s);
    ReadEachText(n, t)
  }

  lemma {:induction false} ByteBack(v: u8, rest: string)
    ensures ReadByte(ByteBytes(v) + rest) == Some((v, rest))
  {
    assert (ByteBytes(v) + rest)[1..] == rest;
  }

  lemma {:induction false} Prefixed(a: string, rest: string)
    ensures (a + rest)[..|a|] == a && (a + rest)[|a|..] == rest
  {
  }

  lemma {:induction false} WordBack(v: nat, rest: string)
    requires v < WORD
    ensures ReadWord(WordBytes(v) + rest) == Some((v, rest))
  {
    Widths();
    LittleEndianBack(v, 4);
    Bits.QuotientIs(v, WORD, 0, v);
    hide LittleEndian, FromLittleEndian, Power256;
    Prefixed(WordBytes(v), rest);
  }

  lemma {:induction false} LongBack(v: i64, rest: string)
    ensures ReadLong(LongBytes(v) + rest) == Some((v, rest))
  {
    Widths();
    LittleEndianBack(v % LONG, 8);
    Bits.QuotientIs(v, LONG, if v < 0 then -1 else 0, if v < 0 then v + LONG else v);
    hide LittleEndian, FromLittleEndian, Power256;
    Prefixed(LongBytes(v), rest);
  }

  lemma {:induction false} TextBack(x: string, rest: string)
    requires |x| < WORD
    ensures ReadText(TextBytes(x) + rest) == Some((x, rest))
  {
    hide WordBytes, ReadWord;
    WordBack(|x|, x + rest);
    Associates(WordBytes(|x|), x, rest);
    assert (x + rest)[..|x|] == x && (x + rest)[|x|..] == rest;
  }

  predicate SmallTexts(ss: seq<string>) {
    |ss| < WORD && forall i :: 0 <= i < |ss| ==> |ss[i]| < WORD
  }

  lemma {:induction false} EachTextBack(ss: seq<string>, rest: string)
    requires forall i :: 0 <= i < |ss| ==> |ss[i]| < WORD
    ensures ReadEachText(|ss|, EachText(ss) + rest) == Some((ss, rest))
    decreases |ss|
  {
    hide TextBytes, ReadText;
    if ss == [] {
      assert "" + rest == rest;
    } else {
      TextBack(ss[0], EachText(ss[1..]) + rest);
      EachTextBack(ss[1..], rest);
      Associates(TextBytes(ss[0]), EachText(ss[1..]), rest);
      assert ss == [ss[0]] + ss[1..];
    }
  }

  lemma {:induction false} TextsBack(ss: seq<string>, rest: string)
    requires SmallTexts(ss)
    ensures ReadTexts(TextsBytes(ss) + rest) == Some((ss, rest))
  {
    hide WordBytes, ReadWord, EachText, ReadEachText;
    WordBack(|ss|, EachText(ss) + rest);
    EachTextBack(ss, rest);
    Associates(WordBytes(|ss|), EachText(ss), rest);
  }

  // ----- the rows -----

  datatype RoleRow = RoleRow(prefix: string, role: u8, dialectGate: string, matchKind: u8)

  datatype MarkerRow = MarkerRow(prefix: string, kind: u8, childOrder: u8, dialectGate: string, extract: u8, payloadExcludes: seq<string>, channelGate: string, introducer: string, versionShape: u8, role: u8)

  datatype LevelLiftRow = LevelLiftRow(prefix: string, level: u8, dialectGate: string)

  datatype LocationRow = LocationRow(kind: u8, infixes: seq<string>, extensions: seq<string>, prefixes: seq<string>, suffixes: seq<string>)

  datatype ValueClassRow = ValueClassRow(key: string, cls: u8, scheduleId: string, scale: i64)

  datatype OutcomeTokenRow = OutcomeTokenRow(token: string, outcome: u8, dialectGate: string)

  datatype OutcomeMarkerRow = OutcomeMarkerRow(prefix: string, dialectGate: string, shape: u8, outcome: u8)

  datatype EmitRow = EmitRow(prefix: string, kind: u8, childOrder: u8, dialectGate: string, emit: u8, channelGate: string, role: u8)

  datatype DeclaredValueRow = DeclaredValueRow(key: string, markers: seq<string>, dialectGate: string)

  function RoleBytes(r: RoleRow): string {
    TextBytes(r.prefix) + ByteBytes(r.role) + TextBytes(r.dialectGate) + ByteBytes(r.matchKind)
  }

  function ReadRole(s: string): Option<(RoleRow, string)> {
    var (prefix, s1) :- ReadText(s);
    var (role, s2) :- ReadByte(s1);
    var (dialectGate, s3) :- ReadText(s2);
    var (matchKind, s4) :- ReadByte(s3);
    Some((RoleRow(prefix, role, dialectGate, matchKind), s4))
  }

  predicate SmallRole(r: RoleRow) {
    |r.prefix| < WORD && |r.dialectGate| < WORD
  }

  lemma {:induction false} RoleBack(r: RoleRow, rest: string)
    requires SmallRole(r)
    ensures ReadRole(RoleBytes(r) + rest) == Some((r, rest))
  {
    hide TextBytes, ByteBytes, TextsBytes, LongBytes, ReadText, ReadByte, ReadTexts, ReadLong, SmallTexts;
    Reassociated();
    var t4 := rest;
    var t3 := ByteBytes(r.matchKind) + t4;
    var t2 := TextBytes(r.dialectGate) + t3;
    var t1 := ByteBytes(r.role) + t2;
    TextBack(r.prefix, t1);
    ByteBack(r.role, t2);
    TextBack(r.dialectGate, t3);
    ByteBack(r.matchKind, t4);
    assert RoleBytes(r) + rest == TextBytes(r.prefix) + t1;
  }

  function MarkerFirst(r: MarkerRow): string {
    TextBytes(r.prefix) + ByteBytes(r.kind) + ByteBytes(r.childOrder) + TextBytes(r.dialectGate) + ByteBytes(r.extract)
  }

  function MarkerSecond(r: MarkerRow): string {
    TextsBytes(r.payloadExcludes) + TextBytes(r.channelGate) + TextBytes(r.introducer) + ByteBytes(r.versionShape) + ByteBytes(r.role)
  }

  function MarkerBytes(r: MarkerRow): string {
    MarkerFirst(r) + MarkerSecond(r)
  }

  function ReadMarker(s: string): Option<(MarkerRow, string)> {
    var (prefix, s1) :- ReadText(s);
    var (kind, s2) :- ReadByte(s1);
    var (childOrder, s3) :- ReadByte(s2);
    var (dialectGate, s4) :- ReadText(s3);
    var (extract, s5) :- ReadByte(s4);
    var (payloadExcludes, s6) :- ReadTexts(s5);
    var (channelGate, s7) :- ReadText(s6);
    var (introducer, s8) :- ReadText(s7);
    var (versionShape, s9) :- ReadByte(s8);
    var (role, s10) :- ReadByte(s9);
    Some((MarkerRow(prefix, kind, childOrder, dialectGate, extract, payloadExcludes, channelGate, introducer, versionShape, role), s10))
  }

  predicate SmallMarker(r: MarkerRow) {
    |r.prefix| < WORD && |r.dialectGate| < WORD && SmallTexts(r.payloadExcludes) && |r.channelGate| < WORD && |r.introducer| < WORD
  }

  lemma {:induction false} MarkerBack(r: MarkerRow, rest: string)
    requires SmallMarker(r)
    ensures ReadMarker(MarkerBytes(r) + rest) == Some((r, rest))
  {
    hide TextBytes, ByteBytes, TextsBytes, LongBytes, ReadText, ReadByte, ReadTexts, ReadLong, SmallTexts;
    Reassociated();
    var t10 := rest;
    var t9 := ByteBytes(r.role) + t10;
    var t8 := ByteBytes(r.versionShape) + t9;
    var t7 := TextBytes(r.introducer) + t8;
    var t6 := TextBytes(r.channelGate) + t7;
    var t5 := TextsBytes(r.payloadExcludes) + t6;
    var t4 := ByteBytes(r.extract) + t5;
    var t3 := TextBytes(r.dialectGate) + t4;
    var t2 := ByteBytes(r.childOrder) + t3;
    var t1 := ByteBytes(r.kind) + t2;
    TextBack(r.prefix, t1);
    ByteBack(r.kind, t2);
    ByteBack(r.childOrder, t3);
    TextBack(r.dialectGate, t4);
    ByteBack(r.extract, t5);
    TextsBack(r.payloadExcludes, t6);
    TextBack(r.channelGate, t7);
    TextBack(r.introducer, t8);
    ByteBack(r.versionShape, t9);
    ByteBack(r.role, t10);
    assert MarkerSecond(r) + rest == t5;
    assert MarkerFirst(r) + t5 == TextBytes(r.prefix) + t1;
  }

  function LevelLiftBytes(r: LevelLiftRow): string {
    TextBytes(r.prefix) + ByteBytes(r.level) + TextBytes(r.dialectGate)
  }

  function ReadLevelLift(s: string): Option<(LevelLiftRow, string)> {
    var (prefix, s1) :- ReadText(s);
    var (level, s2) :- ReadByte(s1);
    var (dialectGate, s3) :- ReadText(s2);
    Some((LevelLiftRow(prefix, level, dialectGate), s3))
  }

  predicate SmallLevelLift(r: LevelLiftRow) {
    |r.prefix| < WORD && |r.dialectGate| < WORD
  }

  lemma {:induction false} LevelLiftBack(r: LevelLiftRow, rest: string)
    requires SmallLevelLift(r)
    ensures ReadLevelLift(LevelLiftBytes(r) + rest) == Some((r, rest))
  {
    hide TextBytes, ByteBytes, TextsBytes, LongBytes, ReadText, ReadByte, ReadTexts, ReadLong, SmallTexts;
    Reassociated();
    var t3 := rest;
    var t2 := TextBytes(r.dialectGate) + t3;
    var t1 := ByteBytes(r.level) + t2;
    TextBack(r.prefix, t1);
    ByteBack(r.level, t2);
    TextBack(r.dialectGate, t3);
    assert LevelLiftBytes(r) + rest == TextBytes(r.prefix) + t1;
  }

  function LocationBytes(r: LocationRow): string {
    ByteBytes(r.kind) + TextsBytes(r.infixes) + TextsBytes(r.extensions) + TextsBytes(r.prefixes) + TextsBytes(r.suffixes)
  }

  function ReadLocation(s: string): Option<(LocationRow, string)> {
    var (kind, s1) :- ReadByte(s);
    var (infixes, s2) :- ReadTexts(s1);
    var (extensions, s3) :- ReadTexts(s2);
    var (prefixes, s4) :- ReadTexts(s3);
    var (suffixes, s5) :- ReadTexts(s4);
    Some((LocationRow(kind, infixes, extensions, prefixes, suffixes), s5))
  }

  predicate SmallLocation(r: LocationRow) {
    SmallTexts(r.infixes) && SmallTexts(r.extensions) && SmallTexts(r.prefixes) && SmallTexts(r.suffixes)
  }

  lemma {:induction false} LocationBack(r: LocationRow, rest: string)
    requires SmallLocation(r)
    ensures ReadLocation(LocationBytes(r) + rest) == Some((r, rest))
  {
    hide TextBytes, ByteBytes, TextsBytes, LongBytes, ReadText, ReadByte, ReadTexts, ReadLong, SmallTexts;
    Reassociated();
    var t5 := rest;
    var t4 := TextsBytes(r.suffixes) + t5;
    var t3 := TextsBytes(r.prefixes) + t4;
    var t2 := TextsBytes(r.extensions) + t3;
    var t1 := TextsBytes(r.infixes) + t2;
    ByteBack(r.kind, t1);
    TextsBack(r.infixes, t2);
    TextsBack(r.extensions, t3);
    TextsBack(r.prefixes, t4);
    TextsBack(r.suffixes, t5);
    assert LocationBytes(r) + rest == ByteBytes(r.kind) + t1;
  }

  function ValueClassBytes(r: ValueClassRow): string {
    TextBytes(r.key) + ByteBytes(r.cls) + TextBytes(r.scheduleId) + LongBytes(r.scale)
  }

  function ReadValueClass(s: string): Option<(ValueClassRow, string)> {
    var (key, s1) :- ReadText(s);
    var (cls, s2) :- ReadByte(s1);
    var (scheduleId, s3) :- ReadText(s2);
    var (scale, s4) :- ReadLong(s3);
    Some((ValueClassRow(key, cls, scheduleId, scale), s4))
  }

  predicate SmallValueClass(r: ValueClassRow) {
    |r.key| < WORD && |r.scheduleId| < WORD
  }

  lemma {:induction false} ValueClassBack(r: ValueClassRow, rest: string)
    requires SmallValueClass(r)
    ensures ReadValueClass(ValueClassBytes(r) + rest) == Some((r, rest))
  {
    hide TextBytes, ByteBytes, TextsBytes, LongBytes, ReadText, ReadByte, ReadTexts, ReadLong, SmallTexts;
    Reassociated();
    var t4 := rest;
    var t3 := LongBytes(r.scale) + t4;
    var t2 := TextBytes(r.scheduleId) + t3;
    var t1 := ByteBytes(r.cls) + t2;
    TextBack(r.key, t1);
    ByteBack(r.cls, t2);
    TextBack(r.scheduleId, t3);
    LongBack(r.scale, t4);
    assert ValueClassBytes(r) + rest == TextBytes(r.key) + t1;
  }

  function OutcomeTokenBytes(r: OutcomeTokenRow): string {
    TextBytes(r.token) + ByteBytes(r.outcome) + TextBytes(r.dialectGate)
  }

  function ReadOutcomeToken(s: string): Option<(OutcomeTokenRow, string)> {
    var (token, s1) :- ReadText(s);
    var (outcome, s2) :- ReadByte(s1);
    var (dialectGate, s3) :- ReadText(s2);
    Some((OutcomeTokenRow(token, outcome, dialectGate), s3))
  }

  predicate SmallOutcomeToken(r: OutcomeTokenRow) {
    |r.token| < WORD && |r.dialectGate| < WORD
  }

  lemma {:induction false} OutcomeTokenBack(r: OutcomeTokenRow, rest: string)
    requires SmallOutcomeToken(r)
    ensures ReadOutcomeToken(OutcomeTokenBytes(r) + rest) == Some((r, rest))
  {
    hide TextBytes, ByteBytes, TextsBytes, LongBytes, ReadText, ReadByte, ReadTexts, ReadLong, SmallTexts;
    Reassociated();
    var t3 := rest;
    var t2 := TextBytes(r.dialectGate) + t3;
    var t1 := ByteBytes(r.outcome) + t2;
    TextBack(r.token, t1);
    ByteBack(r.outcome, t2);
    TextBack(r.dialectGate, t3);
    assert OutcomeTokenBytes(r) + rest == TextBytes(r.token) + t1;
  }

  function OutcomeMarkerBytes(r: OutcomeMarkerRow): string {
    TextBytes(r.prefix) + TextBytes(r.dialectGate) + ByteBytes(r.shape) + ByteBytes(r.outcome)
  }

  function ReadOutcomeMarker(s: string): Option<(OutcomeMarkerRow, string)> {
    var (prefix, s1) :- ReadText(s);
    var (dialectGate, s2) :- ReadText(s1);
    var (shape, s3) :- ReadByte(s2);
    var (outcome, s4) :- ReadByte(s3);
    Some((OutcomeMarkerRow(prefix, dialectGate, shape, outcome), s4))
  }

  predicate SmallOutcomeMarker(r: OutcomeMarkerRow) {
    |r.prefix| < WORD && |r.dialectGate| < WORD
  }

  lemma {:induction false} OutcomeMarkerBack(r: OutcomeMarkerRow, rest: string)
    requires SmallOutcomeMarker(r)
    ensures ReadOutcomeMarker(OutcomeMarkerBytes(r) + rest) == Some((r, rest))
  {
    hide TextBytes, ByteBytes, TextsBytes, LongBytes, ReadText, ReadByte, ReadTexts, ReadLong, SmallTexts;
    Reassociated();
    var t4 := rest;
    var t3 := ByteBytes(r.outcome) + t4;
    var t2 := ByteBytes(r.shape) + t3;
    var t1 := TextBytes(r.dialectGate) + t2;
    TextBack(r.prefix, t1);
    TextBack(r.dialectGate, t2);
    ByteBack(r.shape, t3);
    ByteBack(r.outcome, t4);
    assert OutcomeMarkerBytes(r) + rest == TextBytes(r.prefix) + t1;
  }

  function EmitBytes(r: EmitRow): string {
    TextBytes(r.prefix) + ByteBytes(r.kind) + ByteBytes(r.childOrder) + TextBytes(r.dialectGate) + ByteBytes(r.emit) + TextBytes(r.channelGate) + ByteBytes(r.role)
  }

  function ReadEmit(s: string): Option<(EmitRow, string)> {
    var (prefix, s1) :- ReadText(s);
    var (kind, s2) :- ReadByte(s1);
    var (childOrder, s3) :- ReadByte(s2);
    var (dialectGate, s4) :- ReadText(s3);
    var (emit, s5) :- ReadByte(s4);
    var (channelGate, s6) :- ReadText(s5);
    var (role, s7) :- ReadByte(s6);
    Some((EmitRow(prefix, kind, childOrder, dialectGate, emit, channelGate, role), s7))
  }

  predicate SmallEmit(r: EmitRow) {
    |r.prefix| < WORD && |r.dialectGate| < WORD && |r.channelGate| < WORD
  }

  lemma {:induction false} EmitBack(r: EmitRow, rest: string)
    requires SmallEmit(r)
    ensures ReadEmit(EmitBytes(r) + rest) == Some((r, rest))
  {
    hide TextBytes, ByteBytes, TextsBytes, LongBytes, ReadText, ReadByte, ReadTexts, ReadLong, SmallTexts;
    Reassociated();
    var t7 := rest;
    var t6 := ByteBytes(r.role) + t7;
    var t5 := TextBytes(r.channelGate) + t6;
    var t4 := ByteBytes(r.emit) + t5;
    var t3 := TextBytes(r.dialectGate) + t4;
    var t2 := ByteBytes(r.childOrder) + t3;
    var t1 := ByteBytes(r.kind) + t2;
    TextBack(r.prefix, t1);
    ByteBack(r.kind, t2);
    ByteBack(r.childOrder, t3);
    TextBack(r.dialectGate, t4);
    ByteBack(r.emit, t5);
    TextBack(r.channelGate, t6);
    ByteBack(r.role, t7);
    assert EmitBytes(r) + rest == TextBytes(r.prefix) + t1;
  }

  function DeclaredValueBytes(r: DeclaredValueRow): string {
    TextBytes(r.key) + TextsBytes(r.markers) + TextBytes(r.dialectGate)
  }

  function ReadDeclaredValue(s: string): Option<(DeclaredValueRow, string)> {
    var (key, s1) :- ReadText(s);
    var (markers, s2) :- ReadTexts(s1);
    var (dialectGate, s3) :- ReadText(s2);
    Some((DeclaredValueRow(key, markers, dialectGate), s3))
  }

  predicate SmallDeclaredValue(r: DeclaredValueRow) {
    |r.key| < WORD && SmallTexts(r.markers) && |r.dialectGate| < WORD
  }

  lemma {:induction false} DeclaredValueBack(r: DeclaredValueRow, rest: string)
    requires SmallDeclaredValue(r)
    ensures ReadDeclaredValue(DeclaredValueBytes(r) + rest) == Some((r, rest))
  {
    hide TextBytes, ByteBytes, TextsBytes, LongBytes, ReadText, ReadByte, ReadTexts, ReadLong, SmallTexts;
    Reassociated();
    var t3 := rest;
    var t2 := TextBytes(r.dialectGate) + t3;
    var t1 := TextsBytes(r.markers) + t2;
    TextBack(r.key, t1);
    TextsBack(r.markers, t2);
    TextBack(r.dialectGate, t3);
    assert DeclaredValueBytes(r) + rest == TextBytes(r.key) + t1;
  }

  // ----- tables of rows -----

  function EachRow<T>(bytes: T -> string, rows: seq<T>): string {
    if rows == [] then "" else bytes(rows[0]) + EachRow(bytes, rows[1..])
  }

  function TableBytes<T>(bytes: T -> string, rows: seq<T>): string {
    WordBytes(|rows|) + EachRow(bytes, rows)
  }

  function ReadEachRow<T>(read: string -> Option<(T, string)>, n: nat, s: string): Option<(seq<T>, string)>
    decreases n
  {
    if n == 0 then Some(([], s))
    else
      var (x, t) :- read(s);
      var (xs, u) :- ReadEachRow(read, n - 1, t);
      Some(([x] + xs, u))
  }

  function ReadTable<T>(read: string -> Option<(T, string)>, s: string): Option<(seq<T>, string)> {
    var (n, t) :- ReadWord(s);
    ReadEachRow(read, n, t)
  }

  /** A reader undoes a writer on every row that is small. */
  ghost predicate Undoes<T(!new)>(bytes: T -> string, read: string -> Option<(T, string)>, small: T -> bool) {
    forall x, rest :: small(x) ==> read(bytes(x) + rest) == Some((x, rest))
  }

  predicate SmallTable<T>(small: T -> bool, rows: seq<T>) {
    |rows| < WORD && forall i :: 0 <= i < |rows| ==> small(rows[i])
  }

  lemma {:induction false} EachRowBack<T(!new)>(bytes: T -> string, read: string -> Option<(T, string)>, small: T -> bool,
                                                rows: seq<T>, rest: string)
    requires Undoes(bytes, read, small) && forall i :: 0 <= i < |rows| ==> small(rows[i])
    ensures ReadEachRow(read, |rows|, EachRow(bytes, rows) + rest) == Some((rows, rest))
    decreases |rows|
  {
    if rows == [] {
      assert "" + rest == rest;
    } else {
      EachRowBack(bytes, read, small, rows[1..], rest);
      Associates(bytes(rows[0]), EachRow(bytes, rows[1..]), rest);
      assert rows == [rows[0]] + rows[1..];
    }
  }

  lemma {:induction false} TableBack<T(!new)>(bytes: T -> string, read: string -> Option<(T, string)>, small: T -> bool,
                                              rows: seq<T>, rest: string)
    requires Undoes(bytes, read, small) && SmallTable(small, rows)
    ensures ReadTable(read, TableBytes(bytes, rows) + rest) == Some((rows, rest))
  {
    hide WordBytes, ReadWord, EachRow, ReadEachRow, Undoes;
    WordBack(|rows|, EachRow(bytes, rows) + rest);
    EachRowBack(bytes, read, small, rows, rest);
    Associates(WordBytes(|rows|), EachRow(bytes, rows), rest);
  }

  /** One turn of a row loop. */
  lemma {:induction false} RowTurn<T>(start: string, bytes: T -> string, rows: seq<T>, i: nat)
    requires i < |rows|
    ensures start + bytes(rows[i]) + EachRow(bytes, rows[i + 1..]) == start + EachRow(bytes, rows[i..])
  {
    assert rows[i..][1..] == rows[i + 1..];
    Associates(start, bytes(rows[i]), EachRow(bytes, rows[i + 1..]));
  }

  lemma {:induction false} RowsEnd<T>(before: string, bytes: T -> string, rows: seq<T>)
    ensures EachRow(bytes, rows[|rows|..]) == "" && before + WordBytes(|rows|) + EachRow(bytes, rows) == before + TableBytes(bytes, rows)
  {
    hide WordBytes;
    Associates(before, WordBytes(|rows|), EachRow(bytes, rows));
  }

  method AppendRoles(before: string, rows: seq<RoleRow>) returns (out: string)
    ensures out == before + TableBytes(RoleBytes, rows)
  {
    hide WordBytes, TextBytes, TextsBytes, ByteBytes, LongBytes, EachRow, TableBytes;
    out := AppendSize(before, |rows|);
    ghost var counted := out;
    for i := 0 to |rows|
      invariant out + EachRow(RoleBytes, rows[i..]) == counted + EachRow(RoleBytes, rows)
    {
      ghost var start := out;
      out := AppendStr(out, rows[i].prefix);
      out := AppendU8(out, rows[i].role);
      out := AppendStr(out, rows[i].dialectGate);
      out := AppendU8(out, rows[i].matchKind);
      assert out == start + RoleBytes(rows[i]) by { Reassociated(); }
      RowTurn(start, RoleBytes, rows, i);
    }
    RowsEnd(before, RoleBytes, rows);
    assert out + "" == out;
  }

  lemma {:induction false} JoinMarkerFirst(x: string, r: MarkerRow)
    ensures x + TextBytes(r.prefix) + ByteBytes(r.kind) + ByteBytes(r.childOrder) + TextBytes(r.dialectGate) + ByteBytes(r.extract)
         == x + MarkerFirst(r)
  {
    hide TextBytes, ByteBytes;
    Reassociated();
  }

  lemma {:induction false} JoinMarkerSecond(x: string, r: MarkerRow)
    ensures x + TextsBytes(r.payloadExcludes) + TextBytes(r.channelGate) + TextBytes(r.introducer) + ByteBytes(r.versionShape) +
            ByteBytes(r.role) == x + MarkerSecond(r)
  {
    hide TextBytes, ByteBytes, TextsBytes;
    Reassociated();
  }

  lemma {:induction false} JoinMarker(x: string, r: MarkerRow)
    ensures x + TextBytes(r.prefix) + ByteBytes(r.kind) + ByteBytes(r.childOrder) + TextBytes(r.dialectGate) + ByteBytes(r.extract) +
            TextsBytes(r.payloadExcludes) + TextBytes(r.channelGate) + TextBytes(r.introducer) + ByteBytes(r.versionShape) +
            ByteBytes(r.role) == x + MarkerBytes(r)
  {
    hide TextBytes, ByteBytes, TextsBytes, MarkerFirst, MarkerSecond;
    JoinMarkerFirst(x, r);
    JoinMarkerSecond(x + MarkerFirst(r), r);
    Associates(x, MarkerFirst(r), MarkerSecond(r));
  }

  method AppendMarkers(before: string, rows: seq<MarkerRow>) returns (out: string)
    ensures out == before + TableBytes(MarkerBytes, rows)
  {
    hide WordBytes, TextBytes, TextsBytes, ByteBytes, LongBytes, EachRow, TableBytes;
    out := AppendSize(before, |rows|);
    ghost var counted := out;
    for i := 0 to |rows|
      invariant out + EachRow(MarkerBytes, rows[i..]) == counted + EachRow(MarkerBytes, rows)
    {
      ghost var start := out;
      out := AppendStr(out, rows[i].prefix);
      out := AppendU8(out, rows[i].kind);
      out := AppendU8(out, rows[i].childOrder);
      out := AppendStr(out, rows[i].dialectGate);
      out := AppendU8(out, rows[i].extract);
      out := AppendStrSpan(out, rows[i].payloadExcludes);
      out := AppendStr(out, rows[i].channelGate);
      out := AppendStr(out, rows[i].introducer);
      out := AppendU8(out, rows[i].versionShape);
      out := AppendU8(out, rows[i].role);
      JoinMarker(start, rows[i]);
      RowTurn(start, MarkerBytes, rows, i);
    }
    RowsEnd(before, MarkerBytes, rows);
    assert out + "" == out;
  }

  method AppendLevelLifts(before: string, rows: seq<LevelLiftRow>) returns (out: string)
    ensures out == before + TableBytes(LevelLiftBytes, rows)
  {
    hide WordBytes, TextBytes, TextsBytes, ByteBytes, LongBytes, EachRow, TableBytes;
    out := AppendSize(before, |rows|);
    ghost var counted := out;
    for i := 0 to |rows|
      invariant out + EachRow(LevelLiftBytes, rows[i..]) == counted + EachRow(LevelLiftBytes, rows)
    {
      ghost var start := out;
      out := AppendStr(out, rows[i].prefix);
      out := AppendU8(out, rows[i].level);
      out := AppendStr(out, rows[i].dialectGate);
      assert out == start + LevelLiftBytes(rows[i]) by { Reassociated(); }
      RowTurn(start, LevelLiftBytes, rows, i);
    }
    RowsEnd(before, LevelLiftBytes, rows);
    assert out + "" == out;
  }

  method AppendLocations(before: string, rows: seq<LocationRow>) returns (out: string)
    ensures out == before + TableBytes(LocationBytes, rows)
  {
    hide WordBytes, TextBytes, TextsBytes, ByteBytes, LongBytes, EachRow, TableBytes;
    out := AppendSize(before, |rows|);
    ghost var counted := out;
    for i := 0 to |rows|
      invariant out + EachRow(LocationBytes, rows[i..]) == counted + EachRow(LocationBytes, rows)
    {
      ghost var start := out;
      out := AppendU8(out, rows[i].kind);
      out := AppendStrSpan(out, rows[i].infixes);
      out := AppendStrSpan(out, rows[i].extensions);
      out := AppendStrSpan(out, rows[i].prefixes);
      out := AppendStrSpan(out, rows[i].suffixes);
      assert out == start + LocationBytes(rows[i]) by { Reassociated(); }
      RowTurn(start, LocationBytes, rows, i);
    }
    RowsEnd(before, LocationBytes, rows);
    assert out + "" == out;
  }

  method AppendValueClasses(before: string, rows: seq<ValueClassRow>) returns (out: string)
    ensures out == before + TableBytes(ValueClassBytes, rows)
  {
    hide WordBytes, TextBytes, TextsBytes, ByteBytes, LongBytes, EachRow, TableBytes;
    out := AppendSize(before, |rows|);
    ghost var counted := out;
    for i := 0 to |rows|
      invariant out + EachRow(ValueClassBytes, rows[i..]) == counted + EachRow(ValueClassBytes, rows)
    {
      ghost var start := out;
      out := AppendStr(out, rows[i].key);
      out := AppendU8(out, rows[i].cls);
      out := AppendStr(out, rows[i].scheduleId);
      out := AppendI64Le(out, rows[i].scale);
      assert out == start + ValueClassBytes(rows[i]) by { Reassociated(); }
      RowTurn(start, ValueClassBytes, rows, i);
    }
    RowsEnd(before, ValueClassBytes, rows);
    assert out + "" == out;
  }

  method AppendOutcomeTokens(before: string, rows: seq<OutcomeTokenRow>) returns (out: string)
    ensures out == before + TableBytes(OutcomeTokenBytes, rows)
  {
    hide WordBytes, TextBytes, TextsBytes, ByteBytes, LongBytes, EachRow, TableBytes;
    out := AppendSize(before, |rows|);
    ghost var counted := out;
    for i := 0 to |rows|
      invariant out + EachRow(OutcomeTokenBytes, rows[i..]) == counted + EachRow(OutcomeTokenBytes, rows)
    {
      ghost var start := out;
      out := AppendStr(out, rows[i].token);
      out := AppendU8(out, rows[i].outcome);
      out := AppendStr(out, rows[i].dialectGate);
      assert out == start + OutcomeTokenBytes(rows[i]) by { Reassociated(); }
      RowTurn(start, OutcomeTokenBytes, rows, i);
    }
    RowsEnd(before, OutcomeTokenBytes, rows);
    assert out + "" == out;
  }

  method AppendOutcomeMarkers(before: string, rows: seq<OutcomeMarkerRow>) returns (out: string)
    ensures out == before + TableBytes(OutcomeMarkerBytes, rows)
  {
    hide WordBytes, TextBytes, TextsBytes, ByteBytes, LongBytes, EachRow, TableBytes;
    out := AppendSize(before, |rows|);
    ghost var counted := out;
    for i := 0 to |rows|
      invariant out + EachRow(OutcomeMarkerBytes, rows[i..]) == counted + EachRow(OutcomeMarkerBytes, rows)
    {
      ghost var start := out;
      out := AppendStr(out, rows[i].prefix);
      out := AppendStr(out, rows[i].dialectGate);
      out := AppendU8(out, rows[i].shape);
      out := AppendU8(out, rows[i].outcome);
      assert out == start + OutcomeMarkerBytes(rows[i]) by { Reassociated(); }
      RowTurn(start, OutcomeMarkerBytes, rows, i);
    }
    RowsEnd(before, OutcomeMarkerBytes, rows);
    assert out + "" == out;
  }

  method AppendEmits(before: string, rows: seq<EmitRow>) returns (out: string)
    ensures out == before + TableBytes(EmitBytes, rows)
  {
    hide WordBytes, TextBytes, TextsBytes, ByteBytes, LongBytes, EachRow, TableBytes;
    out := AppendSize(before, |rows|);
    ghost var counted := out;
    for i := 0 to |rows|
      invariant out + EachRow(EmitBytes, rows[i..]) == counted + EachRow(EmitBytes, rows)
    {
      ghost var start := out;
      out := AppendStr(out, rows[i].prefix);
      out := AppendU8(out, rows[i].kind);
      out := AppendU8(out, rows[i].childOrder);
      out := AppendStr(out, rows[i].dialectGate);
      out := AppendU8(out, rows[i].emit);
      out := AppendStr(out, rows[i].channelGate);
      out := AppendU8(out, rows[i].role);
      assert out == start + EmitBytes(rows[i]) by { Reassociated(); }
      RowTurn(start, EmitBytes, rows, i);
    }
    RowsEnd(before, EmitBytes, rows);
    assert out + "" == out;
  }

  method AppendDeclaredValues(before: string, rows: seq<DeclaredValueRow>) returns (out: string)
    ensures out == before + TableBytes(DeclaredValueBytes, rows)
  {
    hide WordBytes, TextBytes, TextsBytes, ByteBytes, LongBytes, EachRow, TableBytes;
    out := AppendSize(before, |rows|);
    ghost var counted := out;
    for i := 0 to |rows|
      invariant out + EachRow(DeclaredValueBytes, rows[i..]) == counted + EachRow(DeclaredValueBytes, rows)
    {
      ghost var start := out;
      out := AppendStr(out, rows[i].key);
      out := AppendStrSpan(out, rows[i].markers);
      out := AppendStr(out, rows[i].dialectGate);
      assert out == start + DeclaredValueBytes(rows[i]) by { Reassociated(); }
      RowTurn(start, DeclaredValueBytes, rows, i);
    }
    RowsEnd(before, DeclaredValueBytes, rows);
    assert out + "" == out;
  }

  lemma {:induction false} RolesBack(rows: seq<RoleRow>, rest: string)
    requires SmallTable(SmallRole, rows)
    ensures ReadTable(ReadRole, TableBytes(RoleBytes, rows) + rest) == Some((rows, rest))
  {
    hide RoleBytes, ReadRole, SmallRole, TableBytes, ReadTable, SmallTable;
    forall r, more | SmallRole(r)
      ensures ReadRole(RoleBytes(r) + more) == Some((r, more))
    {
      RoleBack(r, more);
    }
    TableBack(RoleBytes, ReadRole, SmallRole, rows, rest);
  }

  lemma {:induction false} MarkersBack(rows: seq<MarkerRow>, rest: string)
    requires SmallTable(SmallMarker, rows)
    ensures ReadTable(ReadMarker, TableBytes(MarkerBytes, rows) + rest) == Some((rows, rest))
  {
    hide MarkerBytes, ReadMarker, SmallMarker, TableBytes, ReadTable, SmallTable;
    forall r, more | SmallMarker(r)
      ensures ReadMarker(MarkerBytes(r) + more) == Some((r, more))
    {
      MarkerBack(r, more);
    }
    TableBack(MarkerBytes, ReadMarker, SmallMarker, rows, rest);
  }

  lemma {:induction false} LevelLiftsBack(rows: seq<LevelLiftRow>, rest: string)
    requires SmallTable(SmallLevelLift, rows)
    ensures ReadTable(ReadLevelLift, TableBytes(LevelLiftBytes, rows) + rest) == Some((rows, rest))
  {
    hide LevelLiftBytes, ReadLevelLift, SmallLevelLift, TableBytes, ReadTable, SmallTable;
    forall r, more | SmallLevelLift(r)
      ensures ReadLevelLift(LevelLiftBytes(r) + more) == Some((r, more))
    {
      LevelLiftBack(r, more);
    }
    TableBack(LevelLiftBytes, ReadLevelLift, SmallLevelLift, rows, rest);
  }

  lemma {:induction false} LocationsBack(rows: seq<LocationRow>, rest: string)
    requires SmallTable(SmallLocation, rows)
    ensures ReadTable(ReadLocation, TableBytes(LocationBytes, rows) + rest) == Some((rows, rest))
  {
    hide LocationBytes, ReadLocation, SmallLocation, TableBytes, ReadTable, SmallTable;
    forall r, more | SmallLocation(r)
      ensures ReadLocation(LocationBytes(r) + more) == Some((r, more))
    {
      LocationBack(r, more);
    }
    TableBack(LocationBytes, ReadLocation, SmallLocation, rows, rest);
  }

  lemma {:induction false} ValueClassesBack(rows: seq<ValueClassRow>, rest: string)
    requires SmallTable(SmallValueClass, rows)
    ensures ReadTable(ReadValueClass, TableBytes(ValueClassBytes, rows) + rest) == Some((rows, rest))
  {
    hide ValueClassBytes, ReadValueClass, SmallValueClass, TableBytes, ReadTable, SmallTable;
    forall r, more | SmallValueClass(r)
      ensures ReadValueClass(ValueClassBytes(r) + more) == Some((r, more))
    {
      ValueClassBack(r, more);
    }
    TableBack(ValueClassBytes, ReadValueClass, SmallValueClass, rows, rest);
  }

  lemma {:induction false} OutcomeTokensBack(rows: seq<OutcomeTokenRow>, rest: string)
    requires SmallTable(SmallOutcomeToken, rows)
    ensures ReadTable(ReadOutcomeToken, TableBytes(OutcomeTokenBytes, rows) + rest) == Some((rows, rest))
  {
    hide OutcomeTokenBytes, ReadOutcomeToken, SmallOutcomeToken, TableBytes, ReadTable, SmallTable;
    forall r, more | SmallOutcomeToken(r)
      ensures ReadOutcomeToken(OutcomeTokenBytes(r) + more) == Some((r, more))
    {
      OutcomeTokenBack(r, more);
    }
    TableBack(OutcomeTokenBytes, ReadOutcomeToken, SmallOutcomeToken, rows, rest);
  }

  lemma {:induction false} OutcomeMarkersBack(rows: seq<OutcomeMarkerRow>, rest: string)
    requires SmallTable(SmallOutcomeMarker, rows)
    ensures ReadTable(ReadOutcomeMarker, TableBytes(OutcomeMarkerBytes, rows) + rest) == Some((rows, rest))
  {
    hide OutcomeMarkerBytes, ReadOutcomeMarker, SmallOutcomeMarker, TableBytes, ReadTable, SmallTable;
    forall r, more | SmallOutcomeMarker(r)
      ensures ReadOutcomeMarker(OutcomeMarkerBytes(r) + more) == Some((r, more))
    {
      OutcomeMarkerBack(r, more);
    }
    TableBack(OutcomeMarkerBytes, ReadOutcomeMarker, SmallOutcomeMarker, rows, rest);
  }

  lemma {:induction false} EmitsBack(rows: seq<EmitRow>, rest: string)
    requires SmallTable(SmallEmit, rows)
    ensures ReadTable(ReadEmit, TableBytes(EmitBytes, rows) + rest) == Some((rows, rest))
  {
    hide EmitBytes, ReadEmit, SmallEmit, TableBytes, ReadTable, SmallTable;
    forall r, more | SmallEmit(r)
      ensures ReadEmit(EmitBytes(r) + more) == Some((r, more))
    {
      EmitBack(r, more);
    }
    TableBack(EmitBytes, ReadEmit, SmallEmit, rows, rest);
  }

  lemma {:induction false} DeclaredValuesBack(rows: seq<DeclaredValueRow>, rest: string)
    requires SmallTable(SmallDeclaredValue, rows)
    ensures ReadTable(ReadDeclaredValue, TableBytes(DeclaredValueBytes, rows) + rest) == Some((rows, rest))
  {
    hide DeclaredValueBytes, ReadDeclaredValue, SmallDeclaredValue, TableBytes, ReadTable, SmallTable;
    forall r, more | SmallDeclaredValue(r)
      ensures ReadDeclaredValue(DeclaredValueBytes(r) + more) == Some((r, more))
    {
      DeclaredValueBack(r, more);
    }
    TableBack(DeclaredValueBytes, ReadDeclaredValue, SmallDeclaredValue, rows, rest);
  }

  // ----- manifests -----

  /** A package's declaration; its two code hooks are opaque addresses, absent when null. */
  datatype Manifest = Manifest(
    name: string, version: string, strategy: Option<int>, echoedSource: Option<int>,
    roles: seq<RoleRow>, channels: seq<string>, markers: seq<MarkerRow>, levelLifts: seq<LevelLiftRow>,
    locations: seq<LocationRow>, valueClasses: seq<ValueClassRow>, outcomeTokens: seq<OutcomeTokenRow>,
    outcomeMarkers: seq<OutcomeMarkerRow>, emits: seq<EmitRow>, dialectRevisions: seq<string>,
    declaredValues: seq<DeclaredValueRow>)

  function Presence(hook: Option<int>): u8 {
    if hook.Some? then 1 else 0
  }

  /** What the identity sees of a package: the hooks count only as present or absent. */
  function Nominal(pkg: Manifest): Manifest {
    pkg.(strategy := if pkg.strategy.Some? then Some(1) else None,
         echoedSource := if pkg.echoedSource.Some? then Some(1) else None)
  }

  function HeadBytes(pkg: Manifest): string {
    TextBytes(pkg.name) + TextBytes(pkg.version) + ByteBytes(Presence(pkg.strategy)) + ByteBytes(Presence(pkg.echoedSource))
  }

  function RulesBytes(pkg: Manifest): string {
    TableBytes(RoleBytes, pkg.roles) + TextsBytes(pkg.channels) + TableBytes(MarkerBytes, pkg.markers) +
    TableBytes(LevelLiftBytes, pkg.levelLifts) + TableBytes(LocationBytes, pkg.locations) +
    TableBytes(ValueClassBytes, pkg.valueClasses)
  }

  function OutcomesBytes(pkg: Manifest): string {
    TableBytes(OutcomeTokenBytes, pkg.outcomeTokens) + TableBytes(OutcomeMarkerBytes, pkg.outcomeMarkers) +
    TableBytes(EmitBytes, pkg.emits) + TextsBytes(pkg.dialectRevisions) + TableBytes(DeclaredValueBytes, pkg.declaredValues)
  }

  function ManifestBytes(pkg: Manifest): string {
    HeadBytes(pkg) + (RulesBytes(pkg) + OutcomesBytes(pkg))
  }

  predicate SmallManifest(pkg: Manifest) {
    && |pkg.name| < WORD && |pkg.version| < WORD
    && SmallTable(SmallRole, pkg.roles) && SmallTexts(pkg.channels) && SmallTable(SmallMarker, pkg.markers)
    && SmallTable(SmallLevelLift, pkg.levelLifts) && SmallTable(SmallLocation, pkg.locations)
    && SmallTable(SmallValueClass, pkg.valueClasses) && SmallTable(SmallOutcomeToken, pkg.outcomeTokens)
    && SmallTable(SmallOutcomeMarker, pkg.outcomeMarkers) && SmallTable(SmallEmit, pkg.emits)
    && SmallTexts(pkg.dialectRevisions) && SmallTable(SmallDeclaredValue, pkg.declaredValues)
  }

  function HookOf(present: u8): Option<int> {
    if present == 0 then None else Some(1)
  }

  function ReadManifest(s: string): Option<(Manifest, string)> {
    var (name, s1) :- ReadText(s);
    var (version, s2) :- ReadText(s1);
    var (strategy, s3) :- ReadByte(s2);
    var (echoed, s4) :- ReadByte(s3);
    var (roles, s5) :- ReadTable(ReadRole, s4);
    var (channels, s6) :- ReadTexts(s5);
    var (markers, s7) :- ReadTable(ReadMarker, s6);
    var (levelLifts, s8) :- ReadTable(ReadLevelLift, s7);
    var (locations, s9) :- ReadTable(ReadLocation, s8);
    var (valueClasses, s10) :- ReadTable(ReadValueClass, s9);
    var (outcomeTokens, s11) :- ReadTable(ReadOutcomeToken, s10);
    var (outcomeMarkers, s12) :- ReadTable(ReadOutcomeMarker, s11);
    var (emits, s13) :- ReadTable(ReadEmit, s12);
    var (revisions, s14) :- ReadTexts(s13);
    var (declaredValues, s15) :- ReadTable(ReadDeclaredValue, s14);
    Some((Manifest(name, version, HookOf(strategy), HookOf(echoed), roles, channels, markers, levelLifts, locations,
                   valueClasses, outcomeTokens, outcomeMarkers, emits, revisions, declaredValues), s15))
  }

  /** `serialize_manifest`, table by table, each with its row loop above. */
  method SerializeManifest(before: string, pkg: Manifest) returns (out: string)
    ensures out == before + ManifestBytes(pkg)
  {
    hide TextBytes, ByteBytes, TextsBytes, TableBytes;
    out := AppendStr(before, pkg.name);
    out := AppendStr(out, pkg.version);
    out := AppendU8(out, Presence(pkg.strategy));
    out := AppendU8(out, Presence(pkg.echoedSource));
    ghost var head := out;
    out := AppendRoles(out, pkg.roles);
    out := AppendStrSpan(out, pkg.channels);
    out := AppendMarkers(out, pkg.markers);
    out := AppendLevelLifts(out, pkg.levelLifts);
    out := AppendLocations(out, pkg.locations);
    out := AppendValueClasses(out, pkg.valueClasses);
    ghost var rules := out;
    out := AppendOutcomeTokens(out, pkg.outcomeTokens);
    out := AppendOutcomeMarkers(out, pkg.outcomeMarkers);
    out := AppendEmits(out, pkg.emits);
    out := AppendStrSpan(out, pkg.dialectRevisions);
    out := AppendDeclaredValues(out, pkg.declaredValues);
    JoinHead(before, pkg);
    JoinRules(head, pkg);
    JoinOutcomes(rules, pkg);
    hide HeadBytes, RulesBytes, OutcomesBytes;
    Associates(before, HeadBytes(pkg), RulesBytes(pkg));
    Associates(before, HeadBytes(pkg), RulesBytes(pkg) + OutcomesBytes(pkg));
    Associates(before + HeadBytes(pkg), RulesBytes(pkg), OutcomesBytes(pkg));
  }

  lemma {:induction false} JoinHead(x: string, pkg: Manifest)
    ensures x + TextBytes(pkg.name) + TextBytes(pkg.version) + ByteBytes(Presence(pkg.strategy)) +
            ByteBytes(Presence(pkg.echoedSource)) == x + HeadBytes(pkg)
  {
    hide TextBytes, ByteBytes;
    Reassociated();
  }

  lemma {:induction false} JoinRules(x: string, pkg: Manifest)
    ensures x + TableBytes(RoleBytes, pkg.roles) + TextsBytes(pkg.channels) + TableBytes(MarkerBytes, pkg.markers) +
            TableBytes(LevelLiftBytes, pkg.levelLifts) + TableBytes(LocationBytes, pkg.locations) +
            TableBytes(ValueClassBytes, pkg.valueClasses) == x + RulesBytes(pkg)
  {
    hide TableBytes, TextsBytes;
    Reassociated();
  }

  lemma {:induction false} JoinOutcomes(x: string, pkg: Manifest)
    ensures x + TableBytes(OutcomeTokenBytes, pkg.outcomeTokens) + TableBytes(OutcomeMarkerBytes, pkg.outcomeMarkers) +
            TableBytes(EmitBytes, pkg.emits) + TextsBytes(pkg.dialectRevisions) +
            TableBytes(DeclaredValueBytes, pkg.declaredValues) == x + OutcomesBytes(pkg)
  {
    hide TableBytes, TextsBytes;
    Reassociated();
  }

  /** A manifest is read back from its bytes, whatever follows them. */
  lemma {:induction false} ManifestBack(pkg: Manifest, rest: string)
    requires SmallManifest(pkg)
    ensures ReadManifest(ManifestBytes(pkg) + rest) == Some((Nominal(pkg), rest))
  {
    hide TextBytes, ByteBytes, TextsBytes, TableBytes, ReadText, ReadByte, ReadTexts, ReadTable, SmallTable, SmallTexts;
    var t15 := rest;
    var t14 := TableBytes(DeclaredValueBytes, pkg.declaredValues) + t15;
    var t13 := TextsBytes(pkg.dialectRevisions) + t14;
    var t12 := TableBytes(EmitBytes, pkg.emits) + t13;
    var t11 := TableBytes(OutcomeMarkerBytes, pkg.outcomeMarkers) + t12;
    var t10 := TableBytes(OutcomeTokenBytes, pkg.outcomeTokens) + t11;
    var t9 := TableBytes(ValueClassBytes, pkg.valueClasses) + t10;
    var t8 := TableBytes(LocationBytes, pkg.locations) + t9;
    var t7 := TableBytes(LevelLiftBytes, pkg.levelLifts) + t8;
    var t6 := TableBytes(MarkerBytes, pkg.markers) + t7;
    var t5 := TextsBytes(pkg.channels) + t6;
    var t4 := TableBytes(RoleBytes, pkg.roles) + t5;
    var t3 := ByteBytes(Presence(pkg.echoedSource)) + t4;
    var t2 := ByteBytes(Presence(pkg.strategy)) + t3;
    var t1 := TextBytes(pkg.version) + t2;
    TextBack(pkg.name, t1);
    TextBack(pkg.version, t2);
    ByteBack(Presence(pkg.strategy), t3);
    ByteBack(Presence(pkg.echoedSource), t4);
    RolesBack(pkg.roles, t5);
    TextsBack(pkg.channels, t6);
    MarkersBack(pkg.markers, t7);
    LevelLiftsBack(pkg.levelLifts, t8);
    LocationsBack(pkg.locations, t9);
    ValueClassesBack(pkg.valueClasses, t10);
    OutcomeTokensBack(pkg.outcomeTokens, t11);
    OutcomeMarkersBack(pkg.outcomeMarkers, t12);
    EmitsBack(pkg.emits, t13);
    TextsBack(pkg.dialectRevisions, t14);
    DeclaredValuesBack(pkg.declaredValues, t15);
    ManifestTail(pkg, rest);
    hide ManifestBytes;
  }

  lemma {:induction false} ManifestTail(pkg: Manifest, rest: string)
    ensures ManifestBytes(pkg) + rest ==
      TextBytes(pkg.name) + (TextBytes(pkg.version) + (ByteBytes(Presence(pkg.strategy)) + (
      ByteBytes(Presence(pkg.echoedSource)) + (TableBytes(RoleBytes, pkg.roles) + (TextsBytes(pkg.channels) + (
      TableBytes(MarkerBytes, pkg.markers) + (TableBytes(LevelLiftBytes, pkg.levelLifts) + (
      TableBytes(LocationBytes, pkg.locations) + (TableBytes(ValueClassBytes, pkg.valueClasses) + (
      TableBytes(OutcomeTokenBytes, pkg.outcomeTokens) + (TableBytes(OutcomeMarkerBytes, pkg.outcomeMarkers) + (
      TableBytes(EmitBytes, pkg.emits) + (TextsBytes(pkg.dialectRevisions) + (
      TableBytes(DeclaredValueBytes, pkg.declaredValues) + rest))))))))))))))
  {
    hide HeadBytes, RulesBytes, OutcomesBytes, TextBytes, ByteBytes, TextsBytes, TableBytes;
    Associates(HeadBytes(pkg), RulesBytes(pkg) + OutcomesBytes(pkg), rest);
    Associates(RulesBytes(pkg), OutcomesBytes(pkg), rest);
    OutcomesTail(pkg, rest);
    RulesTail(pkg, OutcomesBytes(pkg) + rest);
    HeadTail(pkg, RulesBytes(pkg) + (OutcomesBytes(pkg) + rest));
  }

  lemma {:induction false} HeadTail(pkg: Manifest, rest: string)
    ensures HeadBytes(pkg) + rest ==
      TextBytes(pkg.name) + (TextBytes(pkg.version) + (ByteBytes(Presence(pkg.strategy)) + (
      ByteBytes(Presence(pkg.echoedSource)) + rest)))
  {
    hide TextBytes, ByteBytes;
    Reassociated();
  }

  lemma {:induction false} RulesTail(pkg: Manifest, rest: string)
    ensures RulesBytes(pkg) + rest ==
      TableBytes(RoleBytes, pkg.roles) + (TextsBytes(pkg.channels) + (
      TableBytes(MarkerBytes, pkg.markers) + (TableBytes(LevelLiftBytes, pkg.levelLifts) + (
      TableBytes(LocationBytes, pkg.locations) + (TableBytes(ValueClassBytes, pkg.valueClasses) + rest)))))
  {
    hide TextsBytes, TableBytes;
    Reassociated();
  }

  lemma {:induction false} OutcomesTail(pkg: Manifest, rest: string)
    ensures OutcomesBytes(pkg) + rest ==
      TableBytes(OutcomeTokenBytes, pkg.outcomeTokens) + (TableBytes(OutcomeMarkerBytes, pkg.outcomeMarkers) + (
      TableBytes(EmitBytes, pkg.emits) + (TextsBytes(pkg.dialectRevisions) + (
      TableBytes(DeclaredValueBytes, pkg.declaredValues) + rest))))
  {
    hide TextsBytes, TableBytes;
    Reassociated();
  }
}
