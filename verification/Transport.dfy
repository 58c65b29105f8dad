/**
 Line prefixes a delivery layer adds (core/src/transport/transport.cpp): the writer that renders a
 bracketed timestamp prefix and the rows that peel prefixes off, with the datetime scanner both share
 (core/api/canon.api.cppm, after section 5.6 of RFC 3339) and the timestamp reader
 (core/src/utils/time_utils.cpp, parse_iso8601). Timestamps are nanoseconds since the epoch.
 */
module Transport {
  import Bits
  import opened Wrappers
  import opened Text
  import opened Calendar

  const MILLIS_PER_DAY := 86_400_000
  const PREFIX_BYTES: nat := 27

  datatype Kind = LinePrefixTimestamp | LinePrefixBracketedTimestamp | LinePrefixByteOrderMark
  datatype Extract = NoExtract | EventObservationTime
  datatype Row = Row(kind: Kind, extract: Extract, prefixWidth: nat, stripLeadingSpace: bool)

  // ----- the datetime grammar -----

  const SHAPE := "dddd-dd-ddTdd:dd:dd"

  predicate Fits(c: char, shape: char) {
    if shape == 'd' then Digit(c) else c == shape
  }

  predicate ShapeAt(text: string, pos: nat) {
    pos + |SHAPE| <= |text| && forall i :: 0 <= i < |SHAPE| ==> Fits(text[pos + i], SHAPE[i])
  }

  predicate DigitAt(text: string, at: nat) {
    at < |text| && Digit(text[at])
  }

  predicate SignAt(text: string, at: nat) {
    at < |text| && (text[at] == '+' || text[at] == '-')
  }

  /** The end of an optional fraction at `pos`, absent when a dot has no digit after it. */
  function FractionEnd(text: string, pos: nat): Option<nat> {
    if pos < |text| && text[pos] == '.' then
      var end := DigitsEnd(text, pos + 1);
      if end == pos + 1 then None else Some(end)
    else Some(pos)
  }

  function ZoneLength(text: string, pos: nat): Option<nat> {
    if pos >= |text| then Some(0)
    else if text[pos] == 'Z' then Some(1)
    else if !SignAt(text, pos) then Some(0)
    else if !DigitAt(text, pos + 1) || !DigitAt(text, pos + 2) then None
    else
      var minutes := if pos + 3 < |text| && text[pos + 3] == ':' then pos + 4 else pos + 3;
      if !DigitAt(text, minutes) || !DigitAt(text, minutes + 1) then None else Some(minutes + 2 - pos)
  }

  function DatetimeLength(text: string, pos: nat): nat {
    if !ShapeAt(text, pos) then 0
    else
      match FractionEnd(text, pos + |SHAPE|)
      case None => 0
      case Some(end) =>
        match ZoneLength(text, end)
        case None => 0
        case Some(zone) => end + zone - pos
  }

  /** `rfc3339_datetime_length`. */
  method Rfc3339DatetimeLength(text: string, start: nat) returns (length: nat)
    ensures length == DatetimeLength(text, start)
  {
    if start + |SHAPE| > |text| {
      return 0;
    }
    var pos := start;
    for i := 0 to |SHAPE|
      invariant pos == start + i
      invariant forall j :: 0 <= j < i ==> Fits(text[start + j], SHAPE[j])
    {
      if !Fits(text[pos], SHAPE[i]) {
        return 0;
      }
      pos := pos + 1;
    }
    if pos < |text| && text[pos] == '.' {
      var end := SkipDigits(text, pos + 1);
      if end == pos + 1 {
        return 0;
      }
      pos := end;
    }
    var zone := ZoneLength(text, pos);
    length := if zone.None? then 0 else pos + zone.value - start;
  }

  predicate IsFraction(f: string) {
    f == "" || (|f| > 1 && f[0] == '.' && AllDigits(f[1..]))
  }

  predicate IsZone(z: string) {
    z == "" || z == "Z" ||
    (|z| == 5 && SignAt(z, 0) && AllDigits(z[1..])) ||
    (|z| == 6 && SignAt(z, 0) && AllDigits(z[1..3]) && z[3] == ':' && AllDigits(z[4..]))
  }

  /** The scanner's class of datetimes: the fixed part, then a fraction, then a zone, either of which may be
      missing. It looks at bytes, not at field values, so it is wider than section 5.6 of RFC 3339. */
  ghost predicate IsDatetime(d: string) {
    ShapeAt(d, 0) && exists k: nat :: DatetimeCut(d, k)
  }

  ghost predicate DatetimeCut(d: string, k: nat) {
    |SHAPE| <= k <= |d| && IsFraction(d[|SHAPE|..k]) && IsZone(d[k..])
  }

  lemma {:induction false} ZoneSound(text: string, pos: nat)
    requires pos <= |text| && ZoneLength(text, pos).Some?
    ensures pos + ZoneLength(text, pos).value <= |text|
    ensures IsZone(text[pos..pos + ZoneLength(text, pos).value])
  {
    var n := ZoneLength(text, pos).value;
    if n == 5 {
      FiveBytes(text, pos);
    } else if n == 6 {
      SixBytes(text, pos);
    }
  }

  lemma {:induction false} FiveBytes(text: string, pos: nat)
    requires pos + 5 <= |text| && SignAt(text, pos)
    requires DigitAt(text, pos + 1) && DigitAt(text, pos + 2) && DigitAt(text, pos + 3) && DigitAt(text, pos + 4)
    ensures IsZone(text[pos..pos + 5])
  {
    var z := text[pos..pos + 5];
    assert z[0] == text[pos] && z[1..] == [text[pos + 1], text[pos + 2], text[pos + 3], text[pos + 4]];
  }

  lemma {:induction false} SixBytes(text: string, pos: nat)
    requires pos + 6 <= |text| && SignAt(text, pos) && text[pos + 3] == ':'
    requires DigitAt(text, pos + 1) && DigitAt(text, pos + 2) && DigitAt(text, pos + 4) && DigitAt(text, pos + 5)
    ensures IsZone(text[pos..pos + 6])
  {
    var z := text[pos..pos + 6];
    assert z[0] == text[pos] && z[1..3] == [text[pos + 1], text[pos + 2]] && z[3] == ':' && z[4..] == [text[pos + 4], text[pos + 5]];
  }

  lemma {:induction false} DatetimeCutSound(text: string, pos: nat)
    requires DatetimeLength(text, pos) > 0
    ensures pos + DatetimeLength(text, pos) <= |text|
    ensures var d, end := text[pos..pos + DatetimeLength(text, pos)], FractionEnd(text, pos + |SHAPE|).value;
      pos + |SHAPE| <= end && ShapeAt(d, 0) && DatetimeCut(d, end - pos)
  {
    hide ZoneLength, IsZone, IsFraction, FractionEnd, DigitsEnd;
    var n := DatetimeLength(text, pos);
    var from, end := pos + |SHAPE|, FractionEnd(text, pos + |SHAPE|).value;
    FractionSound(text, from);
    ZoneSound(text, end);
    var d := text[pos..pos + n];
    SliceOfSlice(text, pos, pos + n, |SHAPE|, end - pos);
    SliceOfSlice(text, pos, pos + n, end - pos, n);
    assert d[end - pos..n] == d[end - pos..];
    assert ShapeAt(d, 0);
  }

  /** What the scan measures is a datetime. */
  lemma {:induction false} DatetimeSound(text: string, pos: nat)
    requires DatetimeLength(text, pos) > 0
    ensures pos + DatetimeLength(text, pos) <= |text|
    ensures IsDatetime(text[pos..pos + DatetimeLength(text, pos)])
  {
    hide DatetimeLength, ShapeAt, DatetimeCut, FractionEnd;
    DatetimeCutSound(text, pos);
  }

  lemma {:induction false} FractionSound(text: string, pos: nat)
    requires pos <= |text| && FractionEnd(text, pos).Some?
    ensures pos <= FractionEnd(text, pos).value <= |text|
    ensures IsFraction(text[pos..FractionEnd(text, pos).value])
  {
    var end := FractionEnd(text, pos).value;
    if end > pos {
      assert text[pos..end][1..] == text[pos + 1..end];
    }
  }

  /** A byte after the datetime `d`, whose zone starts at `k`, that continues neither its fraction nor its
      zone. A datetime with a zone is continued by nothing. */
  predicate Stops(d: string, k: nat, c: char) {
    k < |d| || (c != 'Z' && c != '+' && c != '-' && if k == |SHAPE| then c != '.' else !Digit(c))
  }

  predicate StopsAt(text: string, at: nat, d: string, k: nat) {
    at < |text| ==> Stops(d, k, text[at])
  }

  predicate EndsZone(text: string, at: nat) {
    at < |text| ==> text[at] != 'Z' && text[at] != '+' && text[at] != '-'
  }

  predicate EndsDatetime(text: string, at: nat) {
    at < |text| ==> text[at] == ']'
  }

  lemma {:induction false} ZoneComplete(text: string, pos: nat, z: string)
    requires At(text, pos, z) && IsZone(z) && (z == "" ==> EndsZone(text, pos))
    ensures ZoneLength(text, pos) == Some(|z|)
  {
    forall i | 0 <= i < |z|
      ensures pos + i < |text| && text[pos + i] == z[i]
    {
      AtByte(text, pos, z, i);
    }
    if |z| == 5 {
      assert z[1] == z[1..][0] && z[2] == z[1..][1] && z[3] == z[1..][2] && z[4] == z[1..][3];
    } else if |z| == 6 {
      assert z[1] == z[1..3][0] && z[2] == z[1..3][1] && z[4] == z[4..][0] && z[5] == z[4..][1];
    }
  }

  lemma {:induction false} FractionComplete(text: string, pos: nat, f: string)
    requires At(text, pos, f) && IsFraction(f)
    requires pos + |f| < |text| ==> if f == "" then text[pos] != '.' else !Digit(text[pos + |f|])
    ensures FractionEnd(text, pos) == Some(pos + |f|)
  {
    if f != "" {
      assert text[pos] == text[pos..pos + |f|][0];
      assert text[pos + 1..pos + |f|] == text[pos..pos + |f|][1..];
      DigitsEndExact(text, pos + 1, pos + |f|);
    }
  }

  /** What follows the fraction does not prolong it: the zone's first byte, or the byte that stops the whole. */
  lemma {:induction false} FractionEnds(text: string, pos: nat, d: string, k: nat)
    requires k <= |d| && At(text, pos, d[k..]) && IsZone(d[k..]) && StopsAt(text, pos + |d| - k, d, k)
    ensures pos < |text| ==> if k == |SHAPE| then text[pos] != '.' else !Digit(text[pos])
  {
    if k < |d| {
      AtHead(text, pos, d[k..]);
    }
  }

  /** A datetime is measured whole when the byte after it continues neither its fraction nor its zone. */
  lemma {:induction false} DatetimeMeasured(text: string, pos: nat, d: string, k: nat)
    requires At(text, pos, d) && ShapeAt(d, 0) && DatetimeCut(d, k) && StopsAt(text, pos + |d|, d, k)
    ensures DatetimeLength(text, pos) == |d|
  {
    hide IsZone, IsFraction, ZoneLength, FractionEnd, ShapeAt, At;
    var n := |SHAPE|;
    ShapeMoves(text, pos, d);
    assert d == d[..n] + d[n..] && d[n..] == d[n..k] + d[k..];
    AtConcat(text, pos, d[..n], d[n..]);
    AtConcat(text, pos + n, d[n..k], d[k..]);
    assert IsFraction(d[n..k]);
    FractionEnds(text, pos + k, d, k);
    ZoneComplete(text, pos + k, d[k..]);
    FractionComplete(text, pos + n, d[n..k]);
  }

  /** A datetime that a closing bracket or the end follows is measured whole. */
  lemma {:induction false} DatetimeComplete(text: string, pos: nat, d: string)
    requires At(text, pos, d) && IsDatetime(d) && EndsDatetime(text, pos + |d|)
    ensures DatetimeLength(text, pos) == |d|
  {
    hide At, ShapeAt, DatetimeCut, DatetimeLength;
    var k: nat :| DatetimeCut(d, k);
    DatetimeMeasured(text, pos, d, k);
  }

  /** What the scan measures, and that the byte after it continues nothing. */
  lemma {:induction false} MeasuredStops(text: string, pos: nat) returns (k: nat)
    requires DatetimeLength(text, pos) > 0
    ensures pos + DatetimeLength(text, pos) <= |text|
    ensures var d := text[pos..pos + DatetimeLength(text, pos)];
      ShapeAt(d, 0) && DatetimeCut(d, k) && StopsAt(text, pos + |d|, d, k)
  {
    DatetimeCutSound(text, pos);
    var end := FractionEnd(text, pos + |SHAPE|).value;
    k := end - pos;
    hide IsZone, IsFraction, DigitsEnd, ShapeAt, DatetimeCut;
  }

  lemma {:induction false} ShapeMoves(text: string, pos: nat, d: string)
    requires At(text, pos, d) && ShapeAt(d, 0)
    ensures ShapeAt(text, pos)
  {
    AtIsSlice(text, pos, d);
    hide At, Fits;
    forall i | 0 <= i < |SHAPE|
      ensures Fits(text[pos + i], SHAPE[i])
    {
      assert Fits(d[0 + i], SHAPE[i]);
    }
  }

  // ----- reading a timestamp -----

  function TwoAt(text: string, at: nat): Option<int> {
    if DigitAt(text, at) && DigitAt(text, at + 1) then Some(10 * DigitOf(text[at]) + DigitOf(text[at + 1])) else None
  }

  function FourAt(text: string, at: nat): Option<int> {
    if TwoAt(text, at).Some? && TwoAt(text, at + 2).Some? then Some(100 * TwoAt(text, at).value + TwoAt(text, at + 2).value)
    else None
  }

  function UtcCorrection(sign: char, hour: int, minute: int): Option<int> {
    if hour < 0 || hour >= 24 || minute < 0 || minute >= 60 then None
    else
      var offset := hour * 3600 + minute * 60;
      Some(if sign == '+' then -offset else offset)
  }

  /** Seconds the zone at `pos` adds to reach UTC; absent when a signed offset is malformed. */
  function ZoneCorrection(text: string, pos: nat): Option<int> {
    if !SignAt(text, pos) then Some(0)
    else if TwoAt(text, pos + 1).None? then None
    else
      var colon := pos + 3 < |text| && text[pos + 3] == ':';
      var minutes := if colon then pos + 4 else pos + 3;
      if (colon || DigitAt(text, pos + 3)) && TwoAt(text, minutes).None? then None
      else
        var hasMinutes := colon || DigitAt(text, pos + 3);
        if DigitAt(text, if hasMinutes then minutes + 2 else pos + 3) then None
        else UtcCorrection(text[pos], TwoAt(text, pos + 1).value, if hasMinutes then TwoAt(text, minutes).value else 0)
  }

  /** The end of what is skipped after the seconds: a dot and any digits. */
  function SkippedFraction(text: string, pos: nat): nat {
    if pos < |text| && text[pos] == '.' then DigitsEnd(text, pos + 1) else pos
  }

  /** The fields of the fixed part, absent when a byte is not what the form asks for. */
  function FixedFields(text: string): Option<Tm>
    requires |text| >= 19
  {
    var year, month, day := FourAt(text, 0), TwoAt(text, 5), TwoAt(text, 8);
    var hour, minute, second := TwoAt(text, 11), TwoAt(text, 14), TwoAt(text, 17);
    if year.None? || text[4] != '-' || month.None? || text[7] != '-' || day.None? then None
    else if text[10] != 'T' && text[10] != ' ' then None
    else if hour.None? || text[13] != ':' || minute.None? || text[16] != ':' || second.None? then None
    else Some(Tm(year.value - 1900, month.value - 1, day.value, hour.value, minute.value, second.value))
  }

  /** The instant a timestamp text names, in nanoseconds. */
  function Iso8601(text: string): Option<int> {
    if |text| < 19 then None
    else
      var fields := FixedFields(text);
      if fields.None? then None
      else
        var seconds := UtcMktime(fields.value);
        if seconds.None? then None
        else
          var correction := ZoneCorrection(text, SkippedFraction(text, 19));
          if correction.None? then None else Some((seconds.value + correction.value) * NANOS_PER_SECOND)
  }

  /** `parse_iso8601`. */
  method ParseIso8601(text: string) returns (time: Option<int>)
    ensures time == Iso8601(text)
  {
    hide UtcMktime, ZoneCorrection, FixedFields;
    if |text| < 19 {
      return None;
    }
    var fields := FixedFields(text);
    if fields.None? {
      return None;
    }
    var seconds := UtcMktime(fields.value);
    if seconds.None? {
      return None;
    }
    var pos := 19;
    if pos < |text| && text[pos] == '.' {
      pos := SkipDigits(text, pos + 1);
    }
    var correction := ZoneCorrection(text, pos);
    if correction.None? {
      return None;
    }
    return Some((seconds.value + correction.value) * NANOS_PER_SECOND);
  }

  // ----- the datetimes of the standard -----

  /** The numeric offset or the zone letter every date-time of the standard ends with. */
  predicate IsOffset(z: string) {
    z == "Z" ||
    (|z| == 6 && SignAt(z, 0) && z[3] == ':' && TwoAt(z, 1).Some? && TwoAt(z, 1).value < 24 && TwoAt(z, 4).Some? && TwoAt(z, 4).value < 60)
  }

  /** A date that exists and a clock reading, a leap second included. */
  predicate FieldsInRange(d: string)
    requires |d| >= 19
  {
    var fields := FixedFields(d);
    fields.Some? &&
    var tm := fields.value;
    IsDate(DateOf(tm)) && 0 <= tm.hour < 24 && 0 <= tm.min < 60 && 0 <= tm.sec <= 60
  }

  ghost predicate StandardCut(d: string, k: nat) {
    |SHAPE| <= k <= |d| && IsFraction(d[|SHAPE|..k]) && IsOffset(d[k..])
  }

  /** A date-time of section 5.6 of RFC 3339 within the field ranges of its section 5.7, its letters in upper
      case. */
  ghost predicate IsStandardDatetime(d: string) {
    ShapeAt(d, 0) && FieldsInRange(d) && exists k: nat :: StandardCut(d, k)
  }

  /** The scanner takes every date-time of the standard. */
  lemma {:induction false} StandardIsDatetime(d: string)
    requires IsStandardDatetime(d)
    ensures IsDatetime(d)
  {
    hide FieldsInRange, ShapeAt, IsFraction, Fits;
    var k: nat :| StandardCut(d, k);
    OffsetIsZone(d[k..]);
    assert DatetimeCut(d, k);
  }

  lemma {:induction false} OffsetIsZone(z: string)
    requires IsOffset(z)
    ensures IsZone(z)
  {
  }

  /** It takes more: field values are not looked at. */
  lemma {:induction false} ScannerIgnoresRanges()
    ensures IsDatetime("9999-99-99T99:99:99") && !IsStandardDatetime("9999-99-99T99:99:99")
  {
    var d := "9999-99-99T99:99:99";
    assert d[19..] == "" && d[19..19] == "" && DatetimeCut(d, 19);
    assert FixedFields(d).Some? && TwoAt(d, 5) == Some(99);
    hide DatetimeCut, StandardCut;
  }

  /** And an offset may lack its colon. */
  lemma {:induction false} ScannerIgnoresColons()
    ensures IsDatetime("2024-01-01T00:00:00+0000") && !IsStandardDatetime("2024-01-01T00:00:00+0000")
  {
    var d := "2024-01-01T00:00:00+0000";
    hide FieldsInRange;
    assert d[19..19] == "" && d[19..] == "+0000" && "+0000"[1..] == "0000" && DatetimeCut(d, 19);
    forall k: nat
      ensures !StandardCut(d, k)
    {
      if 19 < k <= |d| {
        assert d[19..k][0] == d[19];
      }
    }
  }

  // ----- rendering -----

  /** Days and milliseconds of the day of a timestamp, both floored. */
  function DaysOf(stamp: int): int {
    stamp / NANOS_PER_MILLI / MILLIS_PER_DAY
  }

  function MillisInDay(stamp: int): (m: int)
    ensures 0 <= m < MILLIS_PER_DAY
  {
    stamp / NANOS_PER_MILLI % MILLIS_PER_DAY
  }

  function Tens(v: int): char
    requires 0 <= v < 100
  {
    DigitChar(v / 10)
  }

  function Units(v: int): char
    requires 0 <= v < 100
  {
    DigitChar(v % 10)
  }

  /** The fixed lexical form of fields whose year has four digits: `YYYY-MM-DDThh:mm:ss.mmmZ`. */
  function Interior(date: Date, hour: int, minute: int, second: int, millis: int): (text: string)
    requires 0 <= date.year <= 9999 && 0 <= date.month < 100 && 0 <= date.day < 100
    requires IsClock(hour, minute, second) && 0 <= millis < 1000
    ensures |text| == 24
  {
    [Tens(date.year / 100), Units(date.year / 100), Tens(date.year % 100), Units(date.year % 100), '-',
     Tens(date.month), Units(date.month), '-', Tens(date.day), Units(date.day), 'T',
     Tens(hour), Units(hour), ':', Tens(minute), Units(minute), ':', Tens(second), Units(second), '.',
     DigitChar(millis / 100), Tens(millis % 100), Units(millis % 100), 'Z']
  }

  predicate Renderable(stamp: int) {
    0 <= CivilFromDays(DaysOf(stamp)).year <= 9999
  }

  function StampText(stamp: int): (text: string)
    requires Renderable(stamp)
    ensures |text| == 24
  {
    DayNumberOfCivil(DaysOf(stamp));
    var millis := MillisInDay(stamp);
    var seconds := millis / 1000;
    Interior(CivilFromDays(DaysOf(stamp)), seconds / 3600, seconds / 60 % 60, seconds % 60, millis % 1000)
  }

  function Prefix(stamp: int): (text: string)
    requires Renderable(stamp)
    ensures |text| == PREFIX_BYTES
  {
    "[" + StampText(stamp) + "] "
  }

  /** `put_two_digits`: writes two bytes at `pos` and moves past them. */
  method PutTwoDigits(out: array<char>, pos: nat, value: int) returns (next: nat)
    requires pos + 2 <= out.Length && 0 <= value < 100
    modifies out
    ensures next == pos + 2
    ensures out[..next] == old(out[..pos]) + [Tens(value), Units(value)]
  {
    out[pos] := DigitChar(value / 10);
    out[pos + 1] := DigitChar(value % 10);
    next := pos + 2;
  }

  method PutByte(out: array<char>, pos: nat, c: char) returns (next: nat)
    requires pos < out.Length
    modifies out
    ensures next == pos + 1
    ensures out[..next] == old(out[..pos]) + [c]
  {
    out[pos] := c;
    next := pos + 1;
  }

  /** The division by a day with its repair below zero: floor division, as the truncating `/` gives it. */
  lemma {:induction false} FlooredDays(millis: int)
    ensures var q, r := TruncatedDiv(millis, MILLIS_PER_DAY), millis - MILLIS_PER_DAY * TruncatedDiv(millis, MILLIS_PER_DAY);
      (if r < 0 then q - 1 else q) == millis / MILLIS_PER_DAY && (if r < 0 then r + MILLIS_PER_DAY else r) == millis % MILLIS_PER_DAY
  {
  }

  /** The truncating division of the milliseconds and its repair give the day and the milliseconds in it. */
  lemma {:induction false} DayAndMillis(stamp: int)
    ensures var total := stamp / NANOS_PER_MILLI; var q := TruncatedDiv(total, MILLIS_PER_DAY);
      var r := total - MILLIS_PER_DAY * q;
      DaysOf(stamp) == (if r < 0 then q - 1 else q) && MillisInDay(stamp) == (if r < 0 then r + MILLIS_PER_DAY else r)
  {
    hide TruncatedDiv;
    FlooredDays(stamp / NANOS_PER_MILLI);
  }

  predicate Writes(row: Row, stamp: int, capacity: nat) {
    row.kind.LinePrefixBracketedTimestamp? && capacity >= PREFIX_BYTES && Renderable(stamp)
  }

  /** `render_transport_prefix`: the prefix goes to the head of the caller's buffer in one copy, or the
      answer is 0 and the buffer is untouched. */
  method RenderTransportPrefix(row: Row, stamp: int, out: array<char>) returns (written: nat)
    modifies out
    ensures if Writes(row, stamp, out.Length) then written == PREFIX_BYTES && out[..] == Prefix(stamp) + old(out[PREFIX_BYTES..])
            else written == 0 && out[..] == old(out[..])
  {
    hide CivilFromDays, TruncatedDiv, Prefix, DaysOf, MillisInDay, Bracketed;
    DayAndMillis(stamp);
    match row.kind {
      case LinePrefixTimestamp => return 0;
      case LinePrefixBracketedTimestamp =>
      case LinePrefixByteOrderMark => return 0;
    }
    if out.Length < PREFIX_BYTES {
      return 0;
    }
    var totalMillis := stamp / NANOS_PER_MILLI;
    var days := TruncatedDiv(totalMillis, MILLIS_PER_DAY);
    var millisInDay := totalMillis - MILLIS_PER_DAY * days;
    if millisInDay < 0 {
      millisInDay := millisInDay + MILLIS_PER_DAY;
      days := days - 1;
    }
    var date := CivilFromDays(days);
    if date.year < 0 || date.year > 9999 {
      return 0;
    }
    DayNumberOfCivil(days);
    var scratch := new char[PREFIX_BYTES];
    ComposePrefix(scratch, date, millisInDay / 1000, millisInDay % 1000);
    PrefixIs(stamp, scratch[..]);
    CopyOver(scratch, out);
    written := PREFIX_BYTES;
  }

  /** The final copy of the finished prefix to the head of the caller's buffer. */
  method CopyOver(scratch: array<char>, out: array<char>)
    requires scratch != out && scratch.Length <= out.Length
    modifies out
    ensures out[..] == scratch[..] + old(out[scratch.Length..])
  {
    forall i | 0 <= i < scratch.Length {
      out[i] := scratch[i];
    }
  }

  predicate Fields(date: Date, second: int, millis: int) {
    0 <= date.year <= 9999 && 0 <= date.month < 100 && 0 <= date.day < 100 && 0 <= second < 86400 && 0 <= millis < 1000
  }

  function Bracketed(date: Date, second: int, millis: int): string
    requires Fields(date, second, millis)
  {
    "[" + Interior(date, second / 3600, second / 60 % 60, second % 60, millis) + "] "
  }

  lemma {:induction false} PrefixIs(stamp: int, text: string)
    requires Renderable(stamp)
    requires var x, m := CivilFromDays(DaysOf(stamp)), MillisInDay(stamp);
      Fields(x, m / 1000, m % 1000) && text == Bracketed(x, m / 1000, m % 1000)
    ensures text == Prefix(stamp)
  {
    hide CivilFromDays, Interior;
  }

  /** The 27 bytes, one after the other. */
  method ComposePrefix(scratch: array<char>, date: Date, second: int, millis: int)
    requires scratch.Length == PREFIX_BYTES && Fields(date, second, millis)
    modifies scratch
    ensures scratch[..] == Bracketed(date, second, millis)
  {
    hide Tens, Units, DigitChar;
    var pos := PutByte(scratch, 0, '[');
    assert scratch[..1] == "[";
    pos := ComposeDate(scratch, pos, date);
    pos := PutByte(scratch, pos, 'T');
    pos := ComposeClock(scratch, pos, second);
    pos := ComposeTail(scratch, pos, millis);
    assert scratch[..] == scratch[..27];
  }

  method ComposeTail(out: array<char>, start: nat, millis: int) returns (pos: nat)
    requires start + 7 <= out.Length && 0 <= millis < 1000
    modifies out
    ensures pos == start + 7
    ensures out[..pos] == old(out[..start]) +
      ['.', DigitChar(millis / 100), Tens(millis % 100), Units(millis % 100), 'Z', ']', ' ']
  {
    hide Tens, Units, DigitChar;
    pos := PutByte(out, start, '.');
    pos := PutByte(out, pos, DigitChar(millis / 100));
    pos := PutTwoDigits(out, pos, millis % 100);
    pos := PutByte(out, pos, 'Z');
    pos := PutByte(out, pos, ']');
    pos := PutByte(out, pos, ' ');
  }

  method ComposeDate(out: array<char>, start: nat, date: Date) returns (pos: nat)
    requires start + 10 <= out.Length && 0 <= date.year <= 9999 && 0 <= date.month < 100 && 0 <= date.day < 100
    modifies out
    ensures pos == start + 10
    ensures out[..pos] == old(out[..start]) +
      [Tens(date.year / 100), Units(date.year / 100), Tens(date.year % 100), Units(date.year % 100), '-',
       Tens(date.month), Units(date.month), '-', Tens(date.day), Units(date.day)]
  {
    hide Tens, Units, DigitChar;
    pos := PutTwoDigits(out, start, date.year / 100);
    pos := PutTwoDigits(out, pos, date.year % 100);
    pos := PutByte(out, pos, '-');
    pos := PutTwoDigits(out, pos, date.month);
    pos := PutByte(out, pos, '-');
    pos := PutTwoDigits(out, pos, date.day);
  }

  method ComposeClock(out: array<char>, start: nat, second: int) returns (pos: nat)
    requires start + 8 <= out.Length && 0 <= second < 86400
    modifies out
    ensures pos == start + 8
    ensures out[..pos] == old(out[..start]) +
      [Tens(second / 3600), Units(second / 3600), ':', Tens(second / 60 % 60), Units(second / 60 % 60), ':',
       Tens(second % 60), Units(second % 60)]
  {
    hide Tens, Units, DigitChar;
    pos := PutTwoDigits(out, start, second / 3600);
    pos := PutByte(out, pos, ':');
    pos := PutTwoDigits(out, pos, second / 60 % 60);
    pos := PutByte(out, pos, ':');
    pos := PutTwoDigits(out, pos, second % 60);
  }

  // ----- what the rendered text says -----

  lemma {:induction false} TwoDigits(text: string, at: nat, v: int)
    requires at + 2 <= |text| && 0 <= v < 100 && text[at] == Tens(v) && text[at + 1] == Units(v)
    ensures TwoAt(text, at) == Some(v)
  {
  }

  lemma {:induction false} InteriorFields(date: Date, hour: int, minute: int, second: int, millis: int)
    requires 0 <= date.year <= 9999 && 0 <= date.month < 100 && 0 <= date.day < 100
    requires IsClock(hour, minute, second) && 0 <= millis < 1000
    ensures var text := Interior(date, hour, minute, second, millis);
      && FixedFields(text) == Some(Tm(date.year - 1900, date.month - 1, date.day, hour, minute, second))
      && ZoneCorrection(text, SkippedFraction(text, 19)) == Some(0)
  {
    var text := Interior(date, hour, minute, second, millis);
    InteriorNumbers(date, hour, minute, second, millis);
    DigitsEndExact(text, 20, 23);
    hide Tens, Units, DigitChar, TwoAt, DigitsEnd;
  }

  lemma {:induction false} InteriorNumbers(date: Date, hour: int, minute: int, second: int, millis: int)
    requires 0 <= date.year <= 9999 && 0 <= date.month < 100 && 0 <= date.day < 100
    requires IsClock(hour, minute, second) && 0 <= millis < 1000
    ensures var text := Interior(date, hour, minute, second, millis);
      && FourAt(text, 0) == Some(date.year) && TwoAt(text, 5) == Some(date.month) && TwoAt(text, 8) == Some(date.day)
      && TwoAt(text, 11) == Some(hour) && TwoAt(text, 14) == Some(minute) && TwoAt(text, 17) == Some(second)
  {
    var text := Interior(date, hour, minute, second, millis);
    hide Tens, Units, DigitChar, TwoAt;
    TwoDigits(text, 0, date.year / 100);
    TwoDigits(text, 2, date.year % 100);
    TwoDigits(text, 5, date.month);
    TwoDigits(text, 8, date.day);
    TwoDigits(text, 11, hour);
    TwoDigits(text, 14, minute);
    TwoDigits(text, 17, second);
  }

  lemma {:induction false} InteriorCut(date: Date, hour: int, minute: int, second: int, millis: int)
    requires 0 <= date.year <= 9999 && 0 <= date.month < 100 && 0 <= date.day < 100
    requires IsClock(hour, minute, second) && 0 <= millis < 1000
    ensures var text := Interior(date, hour, minute, second, millis); ShapeAt(text, 0) && StandardCut(text, 23)
  {
    var text := Interior(date, hour, minute, second, millis);
    hide Tens, Units, DigitChar;
    assert text[23..] == "Z";
    assert text[19..23][0] == '.';
    assert text[19..23][1..] == text[20..23];
  }

  lemma {:induction false} InteriorIsStandard(date: Date, hour: int, minute: int, second: int, millis: int)
    requires 0 <= date.year <= 9999 && IsDate(date) && 0 <= date.month < 100 && 0 <= date.day < 100
    requires IsClock(hour, minute, second) && 0 <= millis < 1000
    ensures IsStandardDatetime(Interior(date, hour, minute, second, millis))
  {
    var text := Interior(date, hour, minute, second, millis);
    InteriorFields(date, hour, minute, second, millis);
    InteriorCut(date, hour, minute, second, millis);
    assert DateOf(Tm(date.year - 1900, date.month - 1, date.day, hour, minute, second)) == date;
    hide Interior, FixedFields, ZoneCorrection, SkippedFraction, ShapeAt, StandardCut, IsDate;
    assert FieldsInRange(text);
  }

  /** The rendered interior is a date-time of section 5.6 of RFC 3339: an existing date, a clock reading and
      the zone letter. */
  lemma {:induction false} RenderedIsStandard(stamp: int)
    requires Renderable(stamp)
    ensures IsStandardDatetime(StampText(stamp))
  {
    DayNumberOfCivil(DaysOf(stamp));
    var x, millis := CivilFromDays(DaysOf(stamp)), MillisInDay(stamp);
    var s := millis / 1000;
    DateFits(x);
    hide CivilFromDays, Interior, IsStandardDatetime;
    InteriorIsStandard(x, s / 3600, s / 60 % 60, s % 60, millis % 1000);
  }

  lemma {:induction false} RenderedIsDatetime(stamp: int)
    requires Renderable(stamp)
    ensures IsDatetime(StampText(stamp))
  {
    hide IsDatetime, IsStandardDatetime, StampText;
    RenderedIsStandard(stamp);
    StandardIsDatetime(StampText(stamp));
  }

  /** Seconds of a timestamp, floored, and the whole second as a timestamp again. */
  function SecondsOf(stamp: int): int {
    stamp / NANOS_PER_SECOND
  }

  function FlooredToSecond(stamp: int): int {
    SecondsOf(stamp) * NANOS_PER_SECOND
  }

  lemma {:induction false} MillisAndSeconds(stamp: int)
    ensures DaysOf(stamp) == SecondsOf(stamp) / SECONDS_PER_DAY
    ensures MillisInDay(stamp) / 1000 == SecondsOf(stamp) % SECONDS_PER_DAY
  {
    var ms := stamp / NANOS_PER_MILLI;
    var sec, r := ms / 1000, ms % 1000;
    Bits.QuotientIs(stamp, NANOS_PER_SECOND, sec, r * NANOS_PER_MILLI + stamp % NANOS_PER_MILLI);
    var day, inDay := sec / SECONDS_PER_DAY, sec % SECONDS_PER_DAY;
    Bits.QuotientIs(ms, MILLIS_PER_DAY, day, inDay * 1000 + r);
    Bits.QuotientIs(inDay * 1000 + r, 1000, inDay, r);
  }

  /** Reading the rendered interior gives the stamp floored to the second, when its year can be read. */
  lemma {:induction false} ParseRendered(stamp: int)
    requires Renderable(stamp)
    ensures Iso8601(StampText(stamp)) ==
            if MIN_YEAR <= CivilFromDays(DaysOf(stamp)).year <= MAX_YEAR then Some(FlooredToSecond(stamp)) else None
  {
    hide CivilFromDays, Interior, UtcMktime, Iso8601, FieldsOf, DayNumber, DaysOf, MillisInDay, IsDate, IsClock;
    var x, s := CivilFromDays(DaysOf(stamp)), MillisInDay(stamp) / 1000;
    DayNumberOfCivil(DaysOf(stamp));
    MillisAndSeconds(stamp);
    StampOfFields(stamp, x, s);
    DateFits(x);
    ParseFields(x, s, MillisInDay(stamp) % 1000);
    if MIN_YEAR <= x.year <= MAX_YEAR {
      MktimeOfCivil(SecondsOf(stamp));
    } else {
      OutOfYears(x, s);
    }
  }

  lemma {:induction false} StampOfFields(stamp: int, x: Date, s: int)
    requires Renderable(stamp) && x == CivilFromDays(DaysOf(stamp)) && s == MillisInDay(stamp) / 1000
    ensures Fields(x, s, MillisInDay(stamp) % 1000)
    ensures StampText(stamp) == Interior(x, s / 3600, s / 60 % 60, s % 60, MillisInDay(stamp) % 1000)
  {
    DayNumberOfCivil(DaysOf(stamp));
    hide CivilFromDays, Interior, DaysOf;
  }

  lemma {:induction false} DateFits(x: Date)
    requires IsDate(x)
    ensures 0 <= x.month < 100 && 0 <= x.day < 100
  {
  }

  lemma {:induction false} OutOfYears(x: Date, s: int)
    requires x.year < MIN_YEAR || x.year > MAX_YEAR
    ensures UtcMktime(FieldsOf(x, s)) == None
  {
    MktimeIsDayNumber(FieldsOf(x, s));
  }

  lemma {:induction false} ParseFields(x: Date, s: int, millis: int)
    requires Fields(x, s, millis)
    ensures var seconds := UtcMktime(FieldsOf(x, s));
      Iso8601(Interior(x, s / 3600, s / 60 % 60, s % 60, millis)) ==
      if seconds.None? then None else Some(seconds.value * NANOS_PER_SECOND)
  {
    hide Interior, UtcMktime, FixedFields, ZoneCorrection, SkippedFraction;
    InteriorFields(x, s / 3600, s / 60 % 60, s % 60, millis);
  }

  // ----- what an offset means -----

  /** Seconds a zone text is ahead of UTC: the local reading is UTC plus this. */
  function SecondsAhead(z: string): int
    requires IsOffset(z)
  {
    if z == "Z" then 0
    else
      var magnitude := 3600 * TwoAt(z, 1).value + 60 * TwoAt(z, 4).value;
      if z[0] == '-' then -magnitude else magnitude
  }

  /** The zone at the end of a text, read where it stands. */
  lemma {:induction false} ZoneMoves(text: string, pos: nat, z: string)
    requires pos <= |text| && text[pos..] == z
    ensures ZoneCorrection(text, pos) == ZoneCorrection(z, 0)
  {
    hide TwoAt;
    assert forall i :: 0 <= i < |z| ==> z[i] == text[pos + i];
    forall i: nat
      ensures TwoAt(text, pos + i) == TwoAt(z, i) && DigitAt(text, pos + i) == DigitAt(z, i)
    {
      TwoMoves(text, pos, z, i);
    }
    assert TwoAt(text, pos + 1) == TwoAt(z, 1) && TwoAt(text, pos + 3) == TwoAt(z, 3) && TwoAt(text, pos + 4) == TwoAt(z, 4);
    assert DigitAt(text, pos + 3) == DigitAt(z, 3) && DigitAt(text, pos + 5) == DigitAt(z, 5) && DigitAt(text, pos + 6) == DigitAt(z, 6);
  }

  lemma {:induction false} TwoMoves(text: string, pos: nat, z: string, i: nat)
    requires pos <= |text| && text[pos..] == z
    ensures TwoAt(text, pos + i) == TwoAt(z, i) && DigitAt(text, pos + i) == DigitAt(z, i)
  {
    assert forall j :: 0 <= j < |z| ==> z[j] == text[pos + j];
  }

  lemma {:induction false} OffsetCorrects(z: string)
    requires IsOffset(z)
    ensures ZoneCorrection(z, 0) == Some(-SecondsAhead(z))
  {
    hide TwoAt;
    TwoIsSmall(z, 1);
    TwoIsSmall(z, 4);
  }

  lemma {:induction false} TwoIsSmall(text: string, at: nat)
    ensures TwoAt(text, at).Some? ==> 0 <= TwoAt(text, at).value < 100
  {
  }

  lemma {:induction false} FractionSkipped(text: string, k: nat)
    requires 19 <= k < |text| && IsFraction(text[19..k]) && !Digit(text[k]) && text[k] != '.'
    ensures SkippedFraction(text, 19) == k
  {
    if k > 19 {
      assert text[19..k][0] == text[19] && text[19..k][1..] == text[20..k];
      DigitsEndExact(text, 20, k);
    }
  }

  /** Every date-time of the standard reads as its local date and clock less what its offset is ahead of UTC;
      only a leap second and a year outside the reader's window have no reading. */
  lemma {:induction false} StandardInstant(d: string, k: nat)
    requires IsStandardDatetime(d) && StandardCut(d, k)
    ensures var tm := FixedFields(d).value;
      Iso8601(d) ==
      if MIN_YEAR <= DateOf(tm).year <= MAX_YEAR && tm.sec < 60 then
        Some((DayNumber(DateOf(tm)) * SECONDS_PER_DAY + ClockSeconds(tm) - SecondsAhead(d[k..])) * NANOS_PER_SECOND)
      else None
  {
    hide FixedFields, UtcMktime, DayNumber, ClockSeconds, IsDate, ShapeAt, IsFraction, IsOffset, SecondsAhead, ZoneCorrection, SkippedFraction;
    OffsetHead(d[k..]);
    FractionSkipped(d, k);
    ZoneMoves(d, k, d[k..]);
    OffsetCorrects(d[k..]);
    MktimeIsDayNumber(FixedFields(d).value);
  }

  lemma {:induction false} OffsetHead(z: string)
    requires IsOffset(z)
    ensures z != "" && !Digit(z[0]) && z[0] != '.'
  {
  }

  /** How an offset may be written. */
  datatype OffsetForm = WithColon | WithoutColon | HoursOnly

  function OffsetText(sign: char, hours: int, minutes: int, form: OffsetForm): string
    requires 0 <= hours < 24 && 0 <= minutes < 60
  {
    match form
    case WithColon => [sign, Tens(hours), Units(hours), ':', Tens(minutes), Units(minutes)]
    case WithoutColon => [sign, Tens(hours), Units(hours), Tens(minutes), Units(minutes)]
    case HoursOnly => [sign, Tens(hours), Units(hours)]
  }

  lemma {:induction false} OffsetTextReads(sign: char, hours: int, minutes: int, form: OffsetForm)
    requires (sign == '+' || sign == '-') && 0 <= hours < 24 && 0 <= minutes < 60 && (form.HoursOnly? ==> minutes == 0)
    ensures ZoneCorrection(OffsetText(sign, hours, minutes, form), 0) ==
            Some(if sign == '+' then -(3600 * hours + 60 * minutes) else 3600 * hours + 60 * minutes)
  {
    hide TwoAt, DigitChar;
    var z := OffsetText(sign, hours, minutes, form);
    TwoDigits(z, 1, hours);
    if form.WithColon? {
      TwoDigits(z, 4, minutes);
    } else if form.WithoutColon? {
      TwoDigits(z, 3, minutes);
    }
  }

  /** A second printed at an offset: the fixed form of the local reading, any fraction, the offset. */
  function LocalText(t: int, sign: char, hours: int, minutes: int, form: OffsetForm, fraction: string): string
    requires (sign == '+' || sign == '-') && 0 <= hours < 24 && 0 <= minutes < 60
    requires Renderable(LocalSecond(t, sign, hours, minutes) * NANOS_PER_SECOND)
  {
    StampText(LocalSecond(t, sign, hours, minutes) * NANOS_PER_SECOND)[..19] + fraction + OffsetText(sign, hours, minutes, form)
  }

  function LocalSecond(t: int, sign: char, hours: int, minutes: int): int {
    if sign == '+' then t + 3600 * hours + 60 * minutes else t - 3600 * hours - 60 * minutes
  }

  /** Every second printed at every offset, in every form, is read back as that second, if and only if the
      local year is one the reader accepts. */
  lemma {:induction false} OffsetRoundTrip(t: int, sign: char, hours: int, minutes: int, form: OffsetForm, fraction: string)
    requires (sign == '+' || sign == '-') && 0 <= hours < 24 && 0 <= minutes < 60 && (form.HoursOnly? ==> minutes == 0)
    requires IsFraction(fraction) && Renderable(LocalSecond(t, sign, hours, minutes) * NANOS_PER_SECOND)
    ensures Iso8601(LocalText(t, sign, hours, minutes, form, fraction)) ==
            if MIN_YEAR <= CivilFromDays(LocalSecond(t, sign, hours, minutes) / SECONDS_PER_DAY).year <= MAX_YEAR
            then Some(t * NANOS_PER_SECOND) else None
  {
    hide CivilFromDays, Iso8601, StampText, ZoneCorrection, OffsetText, Renderable, IsFraction;
    var stamp := LocalSecond(t, sign, hours, minutes) * NANOS_PER_SECOND;
    var head, zone := StampText(stamp)[..19], OffsetText(sign, hours, minutes, form);
    MillisAndSeconds(stamp);
    Bits.QuotientIs(stamp, NANOS_PER_SECOND, LocalSecond(t, sign, hours, minutes), 0);
    StampReads(stamp);
    ParseRendered(stamp);
    OffsetTextReads(sign, hours, minutes, form);
    OffsetTextHead(sign, hours, minutes, form);
    TextReads(StampText(stamp), fraction, zone);
  }

  lemma {:induction false} OffsetTextHead(sign: char, hours: int, minutes: int, form: OffsetForm)
    requires 0 <= hours < 24 && 0 <= minutes < 60
    ensures OffsetText(sign, hours, minutes, form) != "" && OffsetText(sign, hours, minutes, form)[0] == sign
  {
    hide Tens, Units;
  }

  /** The rendered stamp has a fixed part, and its zone letter moves nothing. */
  lemma {:induction false} StampReads(stamp: int)
    requires Renderable(stamp)
    ensures FixedFields(StampText(stamp)).Some? && ZoneCorrection(StampText(stamp), SkippedFraction(StampText(stamp), 19)) == Some(0)
  {
    hide CivilFromDays, Interior, FixedFields, ZoneCorrection, SkippedFraction;
    DayNumberOfCivil(DaysOf(stamp));
    var x, s := CivilFromDays(DaysOf(stamp)), MillisInDay(stamp) / 1000;
    DateFits(x);
    InteriorFields(x, s / 3600, s / 60 % 60, s % 60, MillisInDay(stamp) % 1000);
  }

  lemma {:induction false} TextReads(whole: string, fraction: string, zone: string)
    requires |whole| >= 19 && FixedFields(whole).Some? && ZoneCorrection(whole, SkippedFraction(whole, 19)) == Some(0)
    requires IsFraction(fraction) && zone != "" && !Digit(zone[0]) && zone[0] != '.' && ZoneCorrection(zone, 0).Some?
    ensures var text := whole[..19] + fraction + zone;
      Iso8601(text) ==
      if Iso8601(whole).None? then None else Some(Iso8601(whole).value + ZoneCorrection(zone, 0).value * NANOS_PER_SECOND)
  {
    hide UtcMktime, ZoneCorrection, FixedFields, IsFraction, SkippedFraction;
    var text, k := whole[..19] + fraction + zone, 19 + |fraction|;
    assert text[19..k] == fraction && text[k..] == zone && text[k] == zone[0];
    FractionSkipped(text, k);
    ZoneMoves(text, k, zone);
    SameFixed(whole, text);
  }

  lemma {:induction false} SameFixed(a: string, b: string)
    requires |a| >= 19 && |b| >= 19 && a[..19] == b[..19]
    ensures FixedFields(a) == FixedFields(b)
  {
    forall i | 0 <= i < 19
      ensures a[i] == b[i]
    {
      assert a[..19][i] == b[..19][i];
    }
  }

  // ----- peeling -----

  /** What is left of a line, and the observation time a prefix yielded. */
  datatype View = View(content: string, time: Option<int>)

  predicate IsSpace(c: char) {
    c == ' ' || c == '\t'
  }

  function Stripped(s: string): (r: string)
    ensures r != "" ==> !IsSpace(r[0])
  {
    if s != "" && IsSpace(s[0]) then Stripped(s[1..]) else s
  }

  function AfterPrefix(row: Row, view: View, stamp: string, width: nat): View
    requires width <= |view.content|
  {
    var rest := view.content[width..];
    View(if row.stripLeadingSpace then Stripped(rest) else rest,
         if row.extract.EventObservationTime? then Iso8601(stamp) else view.time)
  }

  const BYTE_ORDER_MARK := [0xEF as char, 0xBB as char, 0xBF as char]

  function Applied(row: Row, view: View): View {
    var line := view.content;
    match row.kind
    case LinePrefixTimestamp =>
      DatetimeInside(line, 0);
      if row.prefixWidth >= |SHAPE| && DatetimeLength(line, 0) == row.prefixWidth
      then AfterPrefix(row, view, line[..row.prefixWidth], row.prefixWidth)
      else view
    case LinePrefixBracketedTimestamp =>
      DatetimeInside(line, 1);
      var length := DatetimeLength(line, 1);
      if line == "" || line[0] != '[' || length == 0 || 1 + length >= |line| || line[1 + length] != ']' then view
      else AfterPrefix(row, view, line[1..1 + length], length + 2)
    case LinePrefixByteOrderMark =>
      if BYTE_ORDER_MARK <= line then view.(content := line[|BYTE_ORDER_MARK|..]) else view
  }

  lemma {:induction false} DatetimeInside(text: string, pos: nat)
    ensures DatetimeLength(text, pos) > 0 ==> pos + DatetimeLength(text, pos) <= |text|
  {
    if DatetimeLength(text, pos) > 0 {
      DatetimeSound(text, pos);
    }
  }

  function Peeled(rows: seq<Row>, view: View): View {
    if rows == [] then view else Peeled(rows[1..], Applied(rows[0], view))
  }

  /** `RawPeeledLine`, shortened in place by the rows in declaration order. */
  class RawPeeledLine {
    var content: string
    var observationTime: Option<int>

    constructor (line: string)
      ensures Contents() == View(line, None)
    {
      content := line;
      observationTime := None;
    }

    function Contents(): View
      reads this
    {
      View(content, observationTime)
    }

    method StripSeparator(row: Row)
      modifies this`content
      ensures content == if row.stripLeadingSpace then Stripped(old(content)) else old(content)
    {
      if !row.stripLeadingSpace {
        return;
      }
      while content != "" && IsSpace(content[0])
        invariant Stripped(content) == Stripped(old(content))
        decreases |content|
      {
        content := content[1..];
      }
    }

    method RemovePrefix(row: Row, stamp: string, width: nat)
      requires width <= |content|
      modifies this
      ensures Contents() == AfterPrefix(row, old(Contents()), stamp, width)
    {
      if row.extract.EventObservationTime? {
        observationTime := ParseIso8601(stamp);
      }
      content := content[width..];
      StripSeparator(row);
    }

    /** `apply_row`. */
    method ApplyRow(row: Row)
      modifies this
      ensures Contents() == Applied(row, old(Contents()))
    {
      hide DatetimeLength, Iso8601, Stripped;
      match row.kind {
        case LinePrefixTimestamp =>
          var length := Rfc3339DatetimeLength(content, 0);
          if row.prefixWidth < |SHAPE| || length != row.prefixWidth {
            return;
          }
          DatetimeInside(content, 0);
          RemovePrefix(row, content[..row.prefixWidth], row.prefixWidth);
        case LinePrefixBracketedTimestamp =>
          if content == "" || content[0] != '[' {
            return;
          }
          var length := Rfc3339DatetimeLength(content, 1);
          if length == 0 {
            return;
          }
          var close := 1 + length;
          if close >= |content| || content[close] != ']' {
            return;
          }
          RemovePrefix(row, content[1..close], close + 1);
        case LinePrefixByteOrderMark =>
          if BYTE_ORDER_MARK <= content {
            content := content[|BYTE_ORDER_MARK|..];
          }
      }
    }

    /** `peel_raw`, from the outermost layer in. */
    method PeelRaw(rows: seq<Row>)
      modifies this
      ensures Contents() == Peeled(rows, old(Contents()))
    {
      hide Applied;
      var i := 0;
      while i < |rows|
        invariant 0 <= i <= |rows|
        invariant Peeled(rows[i..], Contents()) == Peeled(rows, old(Contents()))
      {
        assert rows[i..][1..] == rows[i + 1..];
        ApplyRow(rows[i]);
        i := i + 1;
      }
    }
  }

  // ----- the laws of the two -----

  /** Rows are applied in the order they are declared in. */
  lemma {:induction false} PeelsInOrder(rows: seq<Row>, more: seq<Row>, view: View)
    ensures Peeled(rows + more, view) == Peeled(more, Peeled(rows, view))
  {
    hide Applied;
    if rows == [] {
      assert rows + more == more;
    } else {
      assert (rows + more)[1..] == rows[1..] + more;
      PeelsInOrder(rows[1..], more, Applied(rows[0], view));
    }
  }

  predicate Suffix(part: string, whole: string) {
    |part| <= |whole| && whole[|whole| - |part|..] == part
  }

  lemma {:induction false} SuffixTransitive(a: string, b: string, c: string)
    requires Suffix(a, b) && Suffix(b, c)
    ensures Suffix(a, c)
  {
    assert c[|c| - |a|..] == c[|c| - |b|..][|b| - |a|..];
  }

  lemma {:induction false} StrippedIsSuffix(s: string)
    ensures Suffix(Stripped(s), s)
  {
    if s != "" && IsSpace(s[0]) {
      StrippedIsSuffix(s[1..]);
      SuffixTransitive(Stripped(s), s[1..], s);
    }
  }

  /** Peeling only ever shortens a line from its head. */
  lemma {:induction false} PeelShortens(rows: seq<Row>, view: View)
    ensures Suffix(Peeled(rows, view).content, view.content)
    decreases |rows|
  {
    if rows != [] {
      RowShortens(rows[0], view);
      PeelShortens(rows[1..], Applied(rows[0], view));
      hide Applied, Suffix;
      SuffixTransitive(Peeled(rows, view).content, Applied(rows[0], view).content, view.content);
    }
  }

  lemma {:induction false} RowShortens(row: Row, view: View)
    ensures Suffix(Applied(row, view).content, view.content)
  {
    hide DatetimeLength, Iso8601, Suffix, AfterPrefix, DigitsEnd;
    var line := view.content;
    DatetimeInside(line, 0);
    DatetimeInside(line, 1);
    forall stamp: string, n: nat | n <= |line|
      ensures Suffix(AfterPrefix(row, view, stamp, n).content, line)
    {
      AfterPrefixShortens(row, view, stamp, n);
    }
    SuffixOfItself(line);
    if BYTE_ORDER_MARK <= line {
      DropIsSuffix(line, |BYTE_ORDER_MARK|);
    }
  }

  lemma {:induction false} SuffixOfItself(s: string)
    ensures Suffix(s, s)
  {
  }

  lemma {:induction false} DropIsSuffix(s: string, n: nat)
    requires n <= |s|
    ensures Suffix(s[n..], s)
  {
  }

  lemma {:induction false} AfterPrefixShortens(row: Row, view: View, stamp: string, n: nat)
    requires n <= |view.content|
    ensures Suffix(AfterPrefix(row, view, stamp, n).content, view.content)
  {
    hide Iso8601, Suffix, Stripped;
    var rest := view.content[n..];
    DropIsSuffix(view.content, n);
    StrippedIsSuffix(rest);
    SuffixTransitive(Stripped(rest), rest, view.content);
  }

  /** A bracketed row takes off exactly a bracketed datetime: it changes the line if and only if one
      stands at its head. */
  lemma {:induction false} BracketedPeelsDatetimes(row: Row, view: View, d: string, rest: string)
    requires row.kind.LinePrefixBracketedTimestamp? && IsDatetime(d) && view.content == "[" + d + "]" + rest
    ensures Applied(row, view) ==
            View(if row.stripLeadingSpace then Stripped(rest) else rest,
                 if row.extract.EventObservationTime? then Iso8601(d) else view.time)
  {
    hide IsDatetime, Iso8601, Stripped, At, DatetimeLength;
    var line := view.content;
    BracketParts(d, rest);
    SliceIsAt(line, 1, 1 + |d|);
    DatetimeComplete(line, 1, d);
    DatetimeNotEmpty(d);
  }

  lemma {:induction false} BracketParts(d: string, rest: string)
    ensures var line := "[" + d + "]" + rest; line[1..1 + |d|] == d && line[1 + |d|] == ']' && line[|d| + 2..] == rest
  {
  }

  lemma {:induction false} DatetimeNotEmpty(d: string)
    requires IsDatetime(d)
    ensures |d| >= |SHAPE|
  {
  }

  lemma {:induction false} BracketCut(content: string, close: nat)
    requires 1 <= close < |content| && content[0] == '[' && content[close] == ']'
    ensures content == "[" + content[1..close] + "]" + content[close + 1..]
  {
  }

  /** A bracketed row that changes the view peels a datetime. */
  lemma {:induction false} BracketedDeclines(row: Row, view: View) returns (d: string, rest: string)
    requires row.kind.LinePrefixBracketedTimestamp? && Applied(row, view) != view
    ensures IsDatetime(d) && view.content == "[" + d + "]" + rest
  {
    hide Iso8601, Stripped, IsDatetime, DatetimeLength;
    var length := DatetimeLength(view.content, 1);
    DatetimeSound(view.content, 1);
    BracketCut(view.content, length + 1);
    d, rest := view.content[1..1 + length], view.content[length + 2..];
  }

  predicate BlankByte(c: char) {
    c as int == 32 || c as int == 9
  }

  /** Stripping leaves the line from its first byte on that is neither a space nor a tab. */
  lemma {:induction false} StrippedExactly(s: string, k: nat)
    requires k <= |s| && (forall i :: 0 <= i < k ==> BlankByte(s[i])) && (k < |s| ==> !BlankByte(s[k]))
    ensures Stripped(s) == s[k..]
  {
    if k > 0 {
      var rest := s[1..];
      assert forall i :: 0 <= i < |rest| ==> rest[i] == s[i + 1];
      StrippedExactly(rest, k - 1);
      assert rest[k - 1..] == s[k..];
    }
  }

  /** The byte order mark is the three bytes EF, BB, BF; only they are cut, and no time is taken from them. */
  lemma {:induction false} ByteOrderMarkCut(row: Row, view: View)
    requires row.kind.LinePrefixByteOrderMark?
    ensures var line := view.content;
      Applied(row, view) ==
      if |line| >= 3 && line[0] as int == 0xEF && line[1] as int == 0xBB && line[2] as int == 0xBF then View(line[3..], view.time) else view
  {
    var line := view.content;
    if |line| >= 3 && line[0] as int == 0xEF && line[1] as int == 0xBB && line[2] as int == 0xBF {
      assert BYTE_ORDER_MARK == line[..3];
    }
  }

  /** Two digits at `at`, worth `v`. */
  predicate TwoNumerals(z: string, at: nat, v: int) {
    at + 2 <= |z| && Numeral(z[at]) && Numeral(z[at + 1]) && v == 10 * (z[at] as int - 48) + (z[at + 1] as int - 48)
  }

  predicate NoNumeralAt(z: string, at: nat) {
    at < |z| ==> !Numeral(z[at])
  }

  /** A signed offset opens the text: hours alone, hours and minutes, or both with a colon between; and no digit
      follows, nor a colon behind hours alone. */
  predicate ZoneOpens(z: string, hours: int, minutes: int) {
    && z != "" && (z[0] == '+' || z[0] == '-') && TwoNumerals(z, 1, hours)
    && if |z| > 3 && z[3] == ':' then TwoNumerals(z, 4, minutes) && NoNumeralAt(z, 6)
       else if |z| > 3 && Numeral(z[3]) then TwoNumerals(z, 3, minutes) && NoNumeralAt(z, 5)
       else minutes == 0
  }

  /** The correction of a zone: nothing when no sign opens it; for an offset in range its seconds, taken away when it
      is ahead of UTC; and a refusal for every other text behind a sign. */
  lemma {:induction false} ZoneExactly(z: string)
    ensures z == "" || (z[0] != '+' && z[0] != '-') ==> ZoneCorrection(z, 0) == Some(0)
    ensures forall hours: int, minutes: int :: ZoneOpens(z, hours, minutes) ==>
      ZoneCorrection(z, 0) ==
      if hours < 24 && minutes < 60 then Some(if z[0] == '+' then -(3600 * hours + 60 * minutes) else 3600 * hours + 60 * minutes) else None
    ensures z != "" && (z[0] == '+' || z[0] == '-') && (forall hours: int, minutes: int :: !ZoneOpens(z, hours, minutes)) ==>
      ZoneCorrection(z, 0) == None
  {
    hide UtcCorrection, TwoAt, TwoNumerals, Numeral;
    TwoAtIs(z, 1);
    TwoAtIs(z, 3);
    TwoAtIs(z, 4);
    NumeralIs();
    forall hours: int, minutes: int | 0 <= hours < 100 && 0 <= minutes < 100
      ensures UtcCorrection('+', hours, minutes) == if hours < 24 && minutes < 60 then Some(-(3600 * hours + 60 * minutes)) else None
      ensures UtcCorrection('-', hours, minutes) == if hours < 24 && minutes < 60 then Some(3600 * hours + 60 * minutes) else None
    {
      CorrectionIs(hours, minutes);
    }
    if ZoneCorrection(z, 0).Some? && z != "" && (z[0] == '+' || z[0] == '-') {
      var hours := TwoAt(z, 1).value;
      var minutes := if |z| > 3 && z[3] == ':' then TwoAt(z, 4).value else if |z| > 3 && Numeral(z[3]) then TwoAt(z, 3).value else 0;
      assert ZoneOpens(z, hours, minutes);
    }
  }

  lemma {:induction false} NumeralIs()
    ensures forall c :: Numeral(c) <==> Digit(c)
  {
  }

  lemma {:induction false} TwoAtIs(z: string, at: nat)
    ensures forall v: int :: TwoNumerals(z, at, v) <==> TwoAt(z, at) == Some(v)
    ensures TwoAt(z, at).Some? ==> 0 <= TwoAt(z, at).value < 100
  {
  }

  lemma {:induction false} CorrectionIs(hours: int, minutes: int)
    requires 0 <= hours < 100 && 0 <= minutes < 100
    ensures UtcCorrection('+', hours, minutes) == if hours < 24 && minutes < 60 then Some(-(3600 * hours + 60 * minutes)) else None
    ensures UtcCorrection('-', hours, minutes) == if hours < 24 && minutes < 60 then Some(3600 * hours + 60 * minutes) else None
  {
  }

  /** The fields of a date-time at the head of a text: `YYYY-MM-DD`, a `T` or a space, `hh:mm:ss`. */
  predicate FieldsWritten(text: string, tm: Tm) {
    && |text| >= 19 && text[4] == '-' && text[7] == '-' && (text[10] == 'T' || text[10] == ' ') && text[13] == ':' && text[16] == ':'
    && (exists century :: 0 <= century < 100 && TwoNumerals(text, 0, century) && TwoNumerals(text, 2, tm.year + 1900 - 100 * century))
    && TwoNumerals(text, 5, tm.mon + 1) && TwoNumerals(text, 8, tm.mday)
    && TwoNumerals(text, 11, tm.hour) && TwoNumerals(text, 14, tm.min) && TwoNumerals(text, 17, tm.sec)
  }

  /** Where the zone begins: behind the seconds, or behind a dot and all the digits after it. */
  predicate ZoneBegins(text: string, k: nat) {
    19 <= k <= |text| &&
    if |text| > 19 && text[19] == '.' then k > 19 && (forall i :: 20 <= i < k ==> Numeral(text[i])) && NoNumeralAt(text, k) else k == 19
  }

  lemma {:induction false} FieldsAre(text: string)
    requires |text| >= 19
    ensures forall tm: Tm :: FieldsWritten(text, tm) <==> FixedFields(text) == Some(tm)
  {
    hide TwoNumerals, TwoAt;
    TwoAtIs(text, 0);
    TwoAtIs(text, 2);
    TwoAtIs(text, 5);
    TwoAtIs(text, 8);
    TwoAtIs(text, 11);
    TwoAtIs(text, 14);
    TwoAtIs(text, 17);
    forall tm: Tm
      ensures FieldsWritten(text, tm) <==> FixedFields(text) == Some(tm)
    {
      if FixedFields(text) == Some(tm) {
        assert TwoNumerals(text, 0, TwoAt(text, 0).value);
      }
    }
  }

  lemma {:induction false} ZoneBegun(text: string, k: nat)
    requires ZoneBegins(text, k)
    ensures SkippedFraction(text, 19) == k
  {
    if k > 19 {
      var digits := text[20..k];
      NumeralIs();
      DigitsEndExact(text, 20, k);
    }
  }

  /** The reading of any text: the written fields, when they are a date and a clock reading in the window, less the
      correction of the zone behind them; and nothing for a text that does not open with such fields. */
  lemma {:induction false} ReadsExactly(text: string)
    ensures forall tm: Tm, k: nat :: FieldsWritten(text, tm) && ZoneBegins(text, k) ==>
      Iso8601(text) ==
      if Accepted(tm) && ZoneCorrection(text[k..], 0).Some? then
        Some((DayNumber(DateOf(tm)) * SECONDS_PER_DAY + ClockSeconds(tm) + ZoneCorrection(text[k..], 0).value) * NANOS_PER_SECOND)
      else None
    ensures (forall tm: Tm :: !FieldsWritten(text, tm)) ==> Iso8601(text) == None
  {
    hide FixedFields, FieldsWritten, UtcMktime, DayNumber, ClockSeconds, IsDate, IsClock, ZoneCorrection, SkippedFraction, ZoneBegins;
    if |text| >= 19 {
      FieldsAre(text);
      forall tm: Tm, k: nat | FieldsWritten(text, tm) && ZoneBegins(text, k)
        ensures k <= |text| && Iso8601(text) ==
          if Accepted(tm) && ZoneCorrection(text[k..], 0).Some? then
            Some((DayNumber(DateOf(tm)) * SECONDS_PER_DAY + ClockSeconds(tm) + ZoneCorrection(text[k..], 0).value) * NANOS_PER_SECOND)
          else None
      {
        ZoneBegun(text, k);
        ZoneWithin(text, k);
        ZoneMoves(text, k, text[k..]);
        MktimeIsDayNumber(tm);
      }
    } else {
      ShortHasNoFields(text);
    }
  }

  lemma {:induction false} ZoneWithin(text: string, k: nat)
    requires ZoneBegins(text, k)
    ensures k <= |text|
  {
  }

  lemma {:induction false} ShortHasNoFields(text: string)
    requires |text| < 19
    ensures forall tm: Tm :: !FieldsWritten(text, tm)
  {
  }

  /** A space between the date and the time reads as the `T` does. */
  lemma {:induction false} SpaceForT(text: string)
    requires |text| >= 19 && text[10] == 'T'
    ensures Iso8601(text[10 := ' ']) == Iso8601(text)
  {
    hide UtcMktime, ZoneCorrection, SkippedFraction, FourAt, TwoAt;
    var spaced := text[10 := ' '];
    SameDigits(text, spaced);
    SameZone(text, spaced);
  }

  lemma {:induction false} SameDigits(a: string, b: string)
    requires |a| == |b| >= 19 && forall i :: 0 <= i < |a| && i != 10 ==> a[i] == b[i]
    ensures FourAt(a, 0) == FourAt(b, 0) && TwoAt(a, 5) == TwoAt(b, 5) && TwoAt(a, 8) == TwoAt(b, 8)
    ensures TwoAt(a, 11) == TwoAt(b, 11) && TwoAt(a, 14) == TwoAt(b, 14) && TwoAt(a, 17) == TwoAt(b, 17)
  {
  }

  lemma {:induction false} SameZone(a: string, b: string)
    requires |a| == |b| >= 19 && forall i :: 0 <= i < |a| && i != 10 ==> a[i] == b[i]
    ensures SkippedFraction(a, 19) == SkippedFraction(b, 19)
    ensures ZoneCorrection(a, SkippedFraction(a, 19)) == ZoneCorrection(b, SkippedFraction(b, 19))
  {
    if |a| > 19 && a[19] == '.' {
      SameDigitsEnd(a, b, 20);
    }
    SameCorrection(a, b, SkippedFraction(a, 19));
  }

  lemma {:induction false} SameDigitsEnd(a: string, b: string, pos: nat)
    requires 10 < pos <= |a| == |b| && forall i :: 10 < i < |a| ==> a[i] == b[i]
    ensures DigitsEnd(a, pos) == DigitsEnd(b, pos)
    decreases |a| - pos
  {
    if pos < |a| {
      SameDigitsEnd(a, b, pos + 1);
    }
  }

  lemma {:induction false} SameCorrection(a: string, b: string, pos: nat)
    requires 10 < pos && |a| == |b| && forall i :: 10 < i < |a| ==> a[i] == b[i]
    ensures ZoneCorrection(a, pos) == ZoneCorrection(b, pos)
  {
    hide UtcCorrection;
  }

  /** A byte order mark in front of a bracketed datetime hides it from the row, unless the mark's own row comes
      first. */
  lemma {:induction false} MarkThenPrefix(mark: Row, row: Row, d: string, rest: string, time: Option<int>)
    requires mark.kind.LinePrefixByteOrderMark? && row.kind.LinePrefixBracketedTimestamp? && row.extract.EventObservationTime?
    requires IsDatetime(d) && !row.stripLeadingSpace
    ensures var line := [0xEF as char, 0xBB as char, 0xBF as char] + ("[" + d + "]" + rest);
      && Peeled([mark, row], View(line, time)) == View(rest, Iso8601(d))
      && Peeled([row, mark], View(line, time)) == View("[" + d + "]" + rest, time)
  {
    hide IsDatetime, Iso8601, Applied;
    var plain := "[" + d + "]" + rest;
    var line := [0xEF as char, 0xBB as char, 0xBF as char] + plain;
    assert line[3..] == plain && line[0] as int == 0xEF && line[1] as int == 0xBB && line[2] as int == 0xBF;
    ByteOrderMarkCut(mark, View(line, time));
    BracketedPeelsDatetimes(row, View(plain, time), d, rest);
    NoBracketNoPeel(row, View(line, time));
    PeelTwo(mark, row, View(line, time));
    PeelTwo(row, mark, View(line, time));
  }

  lemma {:induction false} PeelTwo(a: Row, b: Row, view: View)
    ensures Peeled([a, b], view) == Applied(b, Applied(a, view))
  {
    hide Applied;
    var w := Applied(a, view);
    assert [a, b][1..] == [b] && [b][1..] == [];
    assert Peeled([a, b], view) == Peeled([b], w);
    assert Peeled([b], w) == Peeled([], Applied(b, w));
  }

  lemma {:induction false} NoBracketNoPeel(row: Row, view: View)
    requires row.kind.LinePrefixBracketedTimestamp? && view.content != "" && view.content[0] != '['
    ensures Applied(row, view) == view
  {
    hide DatetimeLength;
  }

  /** A datetime of length `n`, its zone at `k`, stands at the head of the line, and the byte after it
      continues it no further. */
  ghost predicate Stands(line: string, n: nat, k: nat) {
    n <= |line| && ShapeAt(line[..n], 0) && DatetimeCut(line[..n], k) && StopsAt(line, n, line[..n], k)
  }

  /** A fixed-width row changes the view if and only if a datetime of exactly its width stands at the head,
      and then takes off just that. */
  lemma {:induction false} FixedPeelsDatetimes(row: Row, view: View)
    requires row.kind.LinePrefixTimestamp?
    ensures Applied(row, view) != view <==> exists k: nat :: Stands(view.content, row.prefixWidth, k)
    ensures Applied(row, view) != view ==>
      |view.content| >= row.prefixWidth &&
      Applied(row, view) == AfterPrefix(row, view, view.content[..row.prefixWidth], row.prefixWidth)
  {
    var line, n := view.content, row.prefixWidth;
    if k: nat :| Stands(line, n, k) {
      FixedMeasured(line, n, k);
    }
    if n > 0 && DatetimeLength(line, 0) == n {
      var k := MeasuredStops(line, 0);
      assert line[0..n] == line[..n];
      assert Stands(line, n, k);
    }
    if n > 0 && n <= |line| {
      PrefixShortens(row, view, line[..n], n);
    }
    hide DatetimeLength, Iso8601, Stripped, AfterPrefix, ShapeAt, DatetimeCut, StopsAt;
  }

  lemma {:induction false} FixedMeasured(line: string, n: nat, k: nat)
    requires Stands(line, n, k)
    ensures n >= |SHAPE| && DatetimeLength(line, 0) == n
  {
    hide At, DatetimeLength, StopsAt;
    assert line[0..n] == line[..n];
    SliceIsAt(line, 0, n);
    DatetimeMeasured(line, 0, line[..n], k);
  }

  lemma {:induction false} PrefixShortens(row: Row, view: View, stamp: string, n: nat)
    requires 0 < n <= |view.content|
    ensures AfterPrefix(row, view, stamp, n) != view
  {
    hide Iso8601, Stripped;
    StrippedIsSuffix(view.content[n..]);
  }

  /** The catalogue's bracketed row: it strips the separator and extracts the time. */
  const BRACKET_ROW: Row := Row(LinePrefixBracketedTimestamp, EventObservationTime, 0, true)

  /** What a reader recovers of a stamp: its second, when its year is one the reader accepts. */
  function Observed(stamp: int): Option<int> {
    if MIN_YEAR <= CivilFromDays(DaysOf(stamp)).year <= MAX_YEAR then Some(FlooredToSecond(stamp)) else None
  }

  /** Render then peel: the line comes back whitespace-stripped, with the stamp floored to the second. */
  lemma {:induction false} RenderThenPeel(stamp: int, line: string, before: Option<int>)
    requires Renderable(stamp)
    ensures Applied(BRACKET_ROW, View(Prefix(stamp) + line, before)) == View(Stripped(line), Observed(stamp))
  {
    hide StampText, Iso8601, IsDatetime, Renderable, FlooredToSecond;
    RenderedIsDatetime(stamp);
    ParseRendered(stamp);
    assert Prefix(stamp) + line == "[" + StampText(stamp) + "]" + (" " + line);
    BracketedPeelsDatetimes(BRACKET_ROW, View(Prefix(stamp) + line, before), StampText(stamp), " " + line);
    assert (" " + line)[1..] == line;
  }

  /** Prefixes rendered one around the other, outermost first. */
  function Layered(stamps: seq<int>, line: string): string
    requires forall i :: 0 <= i < |stamps| ==> Renderable(stamps[i])
  {
    if stamps == [] then line else Prefix(stamps[0]) + Layered(stamps[1..], line)
  }

  function BracketRows(n: nat): seq<Row> {
    if n == 0 then [] else [BRACKET_ROW] + BracketRows(n - 1)
  }

  /** A line wrapped any number of times peels back to itself, whitespace-stripped, and the time observed
      is the innermost one. */
  lemma {:induction false} WrapsUnwrap(stamps: seq<int>, line: string, before: Option<int>)
    requires stamps != [] && forall i :: 0 <= i < |stamps| ==> Renderable(stamps[i])
    ensures Peeled(BracketRows(|stamps|), View(Layered(stamps, line), before)) ==
            View(Stripped(line), Observed(stamps[|stamps| - 1]))
    decreases |stamps|
  {
    hide Applied, Prefix, Renderable, Observed;
    var inner := Layered(stamps[1..], line);
    RenderThenPeel(stamps[0], inner, before);
    var rows := BracketRows(|stamps|);
    assert rows[1..] == BracketRows(|stamps| - 1);
    if |stamps| > 1 {
      PrefixHead(stamps[1]);
      assert inner[0] == '[';
      WrapsUnwrap(stamps[1..], line, Observed(stamps[0]));
    }
  }

  lemma {:induction false} PrefixHead(stamp: int)
    requires Renderable(stamp)
    ensures Prefix(stamp)[0] == '['
  {
  }

  /** The stamp comes back if and only if the reader accepts its year. */
  lemma {:induction false} ObservedExactly(stamp: int)
    requires Renderable(stamp)
    ensures Applied(BRACKET_ROW, View(Prefix(stamp), None)).time == Some(FlooredToSecond(stamp)) <==>
            MIN_YEAR <= CivilFromDays(DaysOf(stamp)).year <= MAX_YEAR
  {
    RenderThenPeel(stamp, "", None);
    hide Applied, Prefix;
    assert Prefix(stamp) + "" == Prefix(stamp);
  }

  const OLDEST := -0x8000_0000_0000_0000
  const NEWEST := 0x7FFF_FFFF_FFFF_FFFF

  /** Every timestamp a 64-bit nanosecond count holds can be rendered. */
  lemma {:induction false} Int64Renderable(stamp: int)
    requires OLDEST <= stamp <= NEWEST
    ensures Renderable(stamp)
  {
    var y := CivilFromDays(DaysOf(stamp)).year;
    CivilYearSpan(DaysOf(stamp));
    assert -106752 <= DaysOf(stamp) <= 106751;
    if y < 0 {
      YearsApart(y + 1, 1970);
    } else if y > 9999 {
      YearsApart(1970, y);
    }
  }

  /** The first and the last of them are rendered and come back without a time: their years, 1677 and 2262,
      are outside what the reader accepts. */
  lemma {:induction false} EndsAreLost()
    ensures Renderable(OLDEST) && Applied(BRACKET_ROW, View(Prefix(OLDEST), None)).time == None
    ensures Renderable(NEWEST) && Applied(BRACKET_ROW, View(Prefix(NEWEST), None)).time == None
  {
    EndYears();
    EndIsLost(OLDEST);
    EndIsLost(NEWEST);
  }

  lemma {:induction false} EndYears()
    ensures CivilFromDays(DaysOf(OLDEST)).year < MIN_YEAR && CivilFromDays(DaysOf(NEWEST)).year > MAX_YEAR
  {
    hide CivilFromDays;
    assert DaysOf(OLDEST) == -106752 && DaysOf(NEWEST) == 106751;
    CivilYearSpan(-106752);
    CivilYearSpan(106751);
    var first, last := CivilFromDays(-106752).year, CivilFromDays(106751).year;
    if first >= MIN_YEAR {
      YearsApart(MIN_YEAR, first);
    }
    if last <= MAX_YEAR {
      YearsApart(last + 1, MAX_YEAR + 1);
    }
  }

  lemma {:induction false} EndIsLost(stamp: int)
    requires OLDEST <= stamp <= NEWEST
    requires CivilFromDays(DaysOf(stamp)).year < MIN_YEAR || CivilFromDays(DaysOf(stamp)).year > MAX_YEAR
    ensures Renderable(stamp) && Applied(BRACKET_ROW, View(Prefix(stamp), None)).time == None
  {
    Int64Renderable(stamp);
    RenderThenPeel(stamp, "", None);
    hide Applied, Prefix, CivilFromDays;
    assert Prefix(stamp) + "" == Prefix(stamp);
  }
}
