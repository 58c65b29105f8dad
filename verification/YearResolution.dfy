/**
 Event times without a year (core/src/utils/time_utils.cpp, make_yearless, yearless_in and
 resolve_yearless; core/src/tokenizer/tokenizer_engine.cpp, Impl::declare and Impl::resolve_event_time).
 A stamp takes the year that brings it nearest the last timed event of its stream. Timestamps are
 nanoseconds since the epoch.
 */
module YearResolution {
  import Bits
  import opened Wrappers
  import opened Calendar

  const DAY := 86_400_000_000_000

  const MAX_DAYS_IN_MONTH: seq<int> := [31, 29, 31, 30, 31, 30, 31, 31, 30, 31, 30, 31]

  datatype Stamp = Stamp(month: int, day: int, millisOfDay: int)

  predicate IsStamp(s: Stamp) {
    1 <= s.month <= 12 && 1 <= s.day <= MAX_DAYS_IN_MONTH[s.month - 1] && 0 <= s.millisOfDay < 86_400_000
  }

  function MakeYearless(month: int, day: int, hour: int, minute: int, second: int, millisecond: int): (r: Option<Stamp>)
    ensures r.Some? ==> IsStamp(r.value)
  {
    if month < 1 || month > 12 then None
    else if day < 1 || day > MAX_DAYS_IN_MONTH[month - 1] then None
    else if hour < 0 || hour >= 24 || minute < 0 || minute >= 60 || second < 0 || second >= 60 ||
            millisecond < 0 || millisecond >= 1000 then None
    else Some(Stamp(month, day, (hour * 3600 + minute * 60 + second) * 1000 + millisecond))
  }

  function YearlessIn(stamp: Stamp, year: int): Option<int> {
    var secondOfDay := stamp.millisOfDay / 1000;
    var seconds := UtcMktime(Tm(year - 1900, stamp.month - 1, stamp.day, secondOfDay / 3600,
                                secondOfDay % 3600 / 60, secondOfDay % 60));
    if seconds.None? then None
    else Some(seconds.value * NANOS_PER_SECOND + stamp.millisOfDay % 1000 * NANOS_PER_MILLI)
  }

  // ----- what a stamp means in a year -----

  predicate ExistsIn(stamp: Stamp, year: int) {
    MIN_YEAR <= year <= MAX_YEAR && IsDate(Date(year, stamp.month, stamp.day))
  }

  lemma {:induction false} StampClock(millis: int)
    requires 0 <= millis < 86_400_000
    ensures var s := millis / 1000;
      IsClock(s / 3600, s % 3600 / 60, s % 60) && s / 3600 * 3600 + s % 3600 / 60 * 60 + s % 60 == s
    ensures millis / 1000 * NANOS_PER_SECOND + millis % 1000 * NANOS_PER_MILLI == millis * NANOS_PER_MILLI
  {
    var s := millis / 1000;
    var r := s % 3600;
    assert s % 60 == r % 60 by {
      assert s == 60 * (60 * (s / 3600)) + r;
      Bits.QuotientIs(s, 60, 60 * (s / 3600) + r / 60, r % 60);
    }
  }

  /** A stamp's instant in a year, present exactly when the year is representable and has the day. */
  lemma {:induction false} InstantIn(stamp: Stamp, year: int)
    requires IsStamp(stamp)
    ensures YearlessIn(stamp, year).Some? <==> ExistsIn(stamp, year)
    ensures ExistsIn(stamp, year) ==>
      YearlessIn(stamp, year) ==
      Some(DayNumber(Date(year, stamp.month, stamp.day)) * DAY + stamp.millisOfDay * NANOS_PER_MILLI)
  {
    var s := stamp.millisOfDay / 1000;
    var tm := Tm(year - 1900, stamp.month - 1, stamp.day, s / 3600, s % 3600 / 60, s % 60);
    StampClock(stamp.millisOfDay);
    MktimeIsDayNumber(tm);
    hide UtcMktime, DayNumber, IsDate;
    assert DateOf(tm) == Date(year, stamp.month, stamp.day);
    assert ClockSeconds(tm) == s;
  }

  /** The stamp built from fields has, in every year that has its day, exactly those fields. */
  lemma {:induction false} StampKeepsFields(month: int, day: int, hour: int, minute: int, second: int, millisecond: int,
                                            year: int)
    requires MakeYearless(month, day, hour, minute, second, millisecond).Some?
    ensures var t := YearlessIn(MakeYearless(month, day, hour, minute, second, millisecond).value, year);
      && (t.Some? <==> MIN_YEAR <= year <= MAX_YEAR && IsDate(Date(year, month, day)))
      && (t.Some? ==> t.value % NANOS_PER_SECOND == millisecond * NANOS_PER_MILLI &&
                      FieldsAt(t.value / NANOS_PER_SECOND) == Tm(year - 1900, month - 1, day, hour, minute, second))
  {
    hide UtcMktime, DayNumber, IsDate, FieldsAt, YearlessIn;
    var stamp := MakeYearless(month, day, hour, minute, second, millisecond).value;
    InstantIn(stamp, year);
    if ExistsIn(stamp, year) {
      FieldsOfStamp(Tm(year - 1900, month - 1, day, hour, minute, second), millisecond);
    }
  }

  lemma {:induction false} FieldsOfStamp(tm: Tm, millisecond: int)
    requires Accepted(tm) && 0 <= millisecond < 1000
    ensures var t := DayNumber(DateOf(tm)) * DAY + (ClockSeconds(tm) * 1000 + millisecond) * NANOS_PER_MILLI;
      t % NANOS_PER_SECOND == millisecond * NANOS_PER_MILLI && FieldsAt(t / NANOS_PER_SECOND) == tm
  {
    hide UtcMktime, DayNumber, IsDate, FieldsAt, ClockSeconds, DateOf;
    MktimeIsDayNumber(tm);
    CivilOfMktime(tm);
    SplitNanos(DayNumber(DateOf(tm)) * SECONDS_PER_DAY + ClockSeconds(tm), millisecond);
    assert DayNumber(DateOf(tm)) * DAY == DayNumber(DateOf(tm)) * SECONDS_PER_DAY * NANOS_PER_SECOND;
  }

  lemma {:induction false} SplitNanos(seconds: int, millisecond: int)
    requires 0 <= millisecond < 1000
    ensures var t := seconds * NANOS_PER_SECOND + millisecond * NANOS_PER_MILLI;
      t % NANOS_PER_SECOND == millisecond * NANOS_PER_MILLI && t / NANOS_PER_SECOND == seconds
  {
    Bits.QuotientIs(seconds * NANOS_PER_SECOND + millisecond * NANOS_PER_MILLI, NANOS_PER_SECOND, seconds,
                    millisecond * NANOS_PER_MILLI);
  }

  predicate IsFeb29(stamp: Stamp) {
    stamp.month == 2 && stamp.day == 29
  }

  /** Only Feb 29 is missing from some year. */
  lemma {:induction false} ExistsUnlessFeb29(stamp: Stamp, year: int)
    requires IsStamp(stamp)
    ensures ExistsIn(stamp, year) <==> MIN_YEAR <= year <= MAX_YEAR && (IsFeb29(stamp) ==> IsLeap(year))
  {
  }

  lemma {:induction false} InstantSpan(stamp: Stamp, year: int, t: int)
    requires IsStamp(stamp) && YearlessIn(stamp, year) == Some(t)
    ensures ExistsIn(stamp, year)
    ensures DaysBeforeYear(year) * DAY <= t < DaysBeforeYear(year + 1) * DAY
    ensures IsFeb29(stamp) ==> IsLeap(year) && (DaysBeforeYear(year) + 59) * DAY <= t < (DaysBeforeYear(year) + 60) * DAY
  {
    InstantIn(stamp, year);
    YearDayBounds(Date(year, stamp.month, stamp.day));
    YearLength(year);
    hide YearlessIn, DaysBeforeYear;
  }

  /** From one year to the next a stamp moves by 365 or 366 days. */
  lemma {:induction false} YearGap(stamp: Stamp, year: int, t: int, u: int)
    requires IsStamp(stamp) && YearlessIn(stamp, year) == Some(t) && YearlessIn(stamp, year + 1) == Some(u)
    ensures 365 * DAY <= u - t <= 366 * DAY
  {
    hide YearlessIn, DaysBeforeYear;
    InstantIn(stamp, year);
    InstantIn(stamp, year + 1);
    YearLength(year);
  }

  // ----- the nearest year -----

  function Distance(t: int, reference: int): nat {
    if t >= reference then t - reference else reference - t
  }

  /** The civil year of the reference's floored day. */
  function ReferenceYear(reference: int): int {
    CivilFromDays(reference / DAY).year
  }

  lemma {:induction false} ReferenceSpan(reference: int)
    ensures var y := ReferenceYear(reference); DaysBeforeYear(y) * DAY <= reference < DaysBeforeYear(y + 1) * DAY
  {
    CivilYearSpan(reference / DAY);
    hide CivilFromDays, DaysBeforeYear;
  }

  /** One turn of the candidate loop: a candidate at least as near replaces the nearest so far. */
  function Closer(nearest: Option<int>, candidate: Option<int>, reference: int): Option<int> {
    if candidate.None? then nearest
    else if nearest.None? || Distance(candidate.value, reference) <= Distance(nearest.value, reference) then candidate
    else nearest
  }

  function NearestOf(stamp: Stamp, reference: int, from: int, count: nat): Option<int>
    decreases count
  {
    if count == 0 then None
    else Closer(NearestOf(stamp, reference, from, count - 1), YearlessIn(stamp, from + count - 1), reference)
  }

  function Resolved(stamp: Stamp, reference: int): Option<int> {
    NearestOf(stamp, reference, ReferenceYear(reference) - 1, 3)
  }

  /** `resolve_yearless`. */
  method ResolveYearless(stamp: Stamp, reference: int) returns (nearest: Option<int>)
    ensures nearest == Resolved(stamp, reference)
  {
    var referenceYear := ReferenceYear(reference);
    hide YearlessIn, ReferenceYear;
    nearest := None;
    var nearestDistance := 0;
    var year := referenceYear - 1;
    while year <= referenceYear + 1
      invariant referenceYear - 1 <= year <= referenceYear + 2
      invariant nearest == NearestOf(stamp, reference, referenceYear - 1, year - (referenceYear - 1))
      invariant nearest.Some? ==> nearestDistance == Distance(nearest.value, reference)
    {
      var candidate := YearlessIn(stamp, year);
      if candidate.Some? {
        var distance := Distance(candidate.value, reference);
        if nearest.None? || distance <= nearestDistance {
          nearest := candidate;
          nearestDistance := distance;
        }
      }
      year := year + 1;
    }
  }

  /** `t` is the instant of the stamp in some year and no year's instant beats it, later ones on ties. */
  ghost predicate IsNearest(stamp: Stamp, reference: int, t: int) {
    && (exists y :: YearlessIn(stamp, y) == Some(t))
    && forall z :: YearlessIn(stamp, z).Some? ==> NoWorse(t, YearlessIn(stamp, z).value, reference)
  }

  predicate NoWorse(t: int, other: int, reference: int) {
    Distance(t, reference) < Distance(other, reference) || (Distance(t, reference) == Distance(other, reference) && other <= t)
  }

  /** The nearest instant is unique, so `IsNearest` pins the result down. */
  lemma {:induction false} NearestIsUnique(stamp: Stamp, reference: int, t: int, u: int)
    requires IsNearest(stamp, reference, t) && IsNearest(stamp, reference, u)
    ensures t == u
  {
    var y :| YearlessIn(stamp, y) == Some(t);
    var z :| YearlessIn(stamp, z) == Some(u);
    hide YearlessIn;
    assert NoWorse(t, u, reference) && NoWorse(u, t, reference);
  }

  lemma {:induction false} InstantsAscend(stamp: Stamp, y: int, z: int, t: int, u: int)
    requires IsStamp(stamp) && YearlessIn(stamp, y) == Some(t) && YearlessIn(stamp, z) == Some(u) && y < z
    ensures t < u
  {
    hide YearlessIn, DaysBeforeYear, IsStamp, ExistsIn;
    InstantSpan(stamp, y, t);
    InstantSpan(stamp, z, u);
    YearsApart(y + 1, z);
  }

  /** The candidate loop keeps the instant of one of the years it visited. */
  lemma {:induction false} NearestYear(stamp: Stamp, reference: int, from: int, count: nat) returns (year: int)
    requires NearestOf(stamp, reference, from, count).Some?
    ensures from <= year < from + count
    ensures YearlessIn(stamp, year) == NearestOf(stamp, reference, from, count)
    decreases count
  {
    hide YearlessIn, Distance;
    year := from + count - 1;
    if NearestOf(stamp, reference, from, count) != YearlessIn(stamp, year) {
      year := NearestYear(stamp, reference, from, count - 1);
    }
  }

  /** No visited year beats it. */
  lemma {:induction false} NearestBeats(stamp: Stamp, reference: int, from: int, count: nat, z: int, t: int)
    requires IsStamp(stamp) && from <= z < from + count && YearlessIn(stamp, z) == Some(t)
    ensures NearestOf(stamp, reference, from, count).Some?
    ensures NoWorse(NearestOf(stamp, reference, from, count).value, t, reference)
    decreases count
  {
    hide YearlessIn, IsStamp;
    var last := from + count - 1;
    if z < last {
      NearestBeats(stamp, reference, from, count - 1, z, t);
      if YearlessIn(stamp, last).Some? {
        InstantsAscend(stamp, z, last, t, YearlessIn(stamp, last).value);
      }
    }
  }

  // ----- globally nearest -----

  /** A year past the later neighbour is farther than the resolved one. */
  lemma {:induction false} LaterYearsFarther(stamp: Stamp, reference: int, y: int, c: int, z: int, t: int, u: int)
    requires IsStamp(stamp) && YearlessIn(stamp, c) == Some(t) && YearlessIn(stamp, z) == Some(u)
    requires y == ReferenceYear(reference) && y - 1 <= c <= y + 1 < z
    requires IsFeb29(stamp) || c == y + 1
    ensures Distance(t, reference) < Distance(u, reference)
  {
    hide YearlessIn, DaysBeforeYear, ReferenceYear, ExistsIn, IsStamp, IsLeap;
    ReferenceSpan(reference);
    InstantSpan(stamp, c, t);
    InstantSpan(stamp, z, u);
    YearsApart(y + 1, z);
    YearsApart(y + 2, z);
    if c <= y {
      LeapYearsApart(c, z);
      YearsApart(c, y);
      YearsApart(c, y + 1);
      YearLength(y);
      hide LeapDay;
    }
  }

  lemma {:induction false} LeapYearsApart(c: int, z: int)
    requires IsLeap(c) && IsLeap(z) && c < z
    ensures z >= c + 4 && LeapDay(c + 1) == 0
  {
    LeapIsFourth(c);
    LeapIsFourth(z);
    LeapIsFourth(c + 1);
    hide IsLeap;
  }

  lemma {:induction false} LeapIsFourth(y: int)
    ensures y % 4 != 0 ==> !IsLeap(y) && LeapDay(y) == 0
  {
    if y % 400 == 0 {
      assert y == 4 * (100 * (y / 400));
    }
  }

  lemma {:induction false} EarlierYearsFarther(stamp: Stamp, reference: int, y: int, c: int, z: int, t: int, u: int)
    requires IsStamp(stamp) && YearlessIn(stamp, c) == Some(t) && YearlessIn(stamp, z) == Some(u)
    requires y == ReferenceYear(reference) && z < y - 1 <= c <= y + 1
    requires IsFeb29(stamp) || c == y - 1
    ensures Distance(t, reference) < Distance(u, reference)
  {
    hide YearlessIn, DaysBeforeYear, ReferenceYear, ExistsIn, IsStamp, IsLeap, LeapDay;
    ReferenceSpan(reference);
    InstantSpan(stamp, c, t);
    InstantSpan(stamp, z, u);
    YearsApart(z + 1, y - 1);
    if c >= y {
      LeapYearsApart(z, c);
      YearsApart(z + 1, y);
      YearsApart(y, c);
    }
  }

  /** The three candidates suffice: whenever one of them exists, the result is the nearest of all years. */
  lemma {:induction false} ResolvedIsNearest(stamp: Stamp, reference: int)
    requires IsStamp(stamp) && Resolved(stamp, reference).Some?
    ensures IsNearest(stamp, reference, Resolved(stamp, reference).value)
  {
    hide YearlessIn, ExistsIn, IsStamp, ReferenceYear, Distance, NearestOf;
    var c := NearestYear(stamp, reference, ReferenceYear(reference) - 1, 3);
    forall z | YearlessIn(stamp, z).Some?
      ensures NoWorse(Resolved(stamp, reference).value, YearlessIn(stamp, z).value, reference)
    {
      ResolvedBeats(stamp, reference, c, z, Resolved(stamp, reference).value, YearlessIn(stamp, z).value);
    }
  }

  lemma {:induction false} ResolvedBeats(stamp: Stamp, reference: int, c: int, z: int, t: int, u: int)
    requires IsStamp(stamp) && YearlessIn(stamp, c) == Some(t) && YearlessIn(stamp, z) == Some(u)
    requires ReferenceYear(reference) - 1 <= c <= ReferenceYear(reference) + 1
    requires Resolved(stamp, reference) == Some(t)
    ensures NoWorse(t, u, reference)
  {
    hide YearlessIn, IsStamp, ReferenceYear, NearestOf, ExistsIn, Distance;
    var y := ReferenceYear(reference);
    if y - 1 <= z <= y + 1 {
      NearestBeats(stamp, reference, y - 1, 3, z, u);
    } else {
      var near := if IsFeb29(stamp) then c else if z > y then y + 1 else y - 1;
      NeighbourExists(stamp, c, z, near);
      var v := YearlessIn(stamp, near).value;
      NearestBeats(stamp, reference, y - 1, 3, near, v);
      if z > y {
        LaterYearsFarther(stamp, reference, y, near, z, v, u);
      } else {
        EarlierYearsFarther(stamp, reference, y, near, z, v, u);
      }
    }
  }

  /** Between two years that hold a stamp every year does, unless it is Feb 29. */
  lemma {:induction false} NeighbourExists(stamp: Stamp, c: int, z: int, near: int)
    requires IsStamp(stamp) && YearlessIn(stamp, c).Some? && YearlessIn(stamp, z).Some?
    requires near == c || (!IsFeb29(stamp) && (c <= near <= z || z <= near <= c))
    ensures YearlessIn(stamp, near).Some?
  {
    hide YearlessIn, IsStamp, ExistsIn;
    InstantIn(stamp, c);
    InstantIn(stamp, z);
    InstantIn(stamp, near);
    ExistsUnlessFeb29(stamp, c);
    ExistsUnlessFeb29(stamp, z);
    ExistsUnlessFeb29(stamp, near);
  }

  /** When the result is present: one of the three neighbouring years must hold the stamp's day, which
      only Feb 29 can miss. */
  lemma {:induction false} ResolvedPresentExactly(stamp: Stamp, reference: int)
    requires IsStamp(stamp)
    ensures Resolved(stamp, reference).Some? <==>
            var y := ReferenceYear(reference); ExistsIn(stamp, y - 1) || ExistsIn(stamp, y) || ExistsIn(stamp, y + 1)
    ensures !IsFeb29(stamp) ==> (Resolved(stamp, reference).Some? <==> MIN_YEAR - 1 <= ReferenceYear(reference) <= MAX_YEAR + 1)
  {
    hide YearlessIn, IsStamp, ReferenceYear, NearestOf, ExistsIn, Distance;
    var y := ReferenceYear(reference);
    if Resolved(stamp, reference).Some? {
      var c := NearestYear(stamp, reference, y - 1, 3);
      InstantIn(stamp, c);
    }
    forall z | y - 1 <= z <= y + 1
      ensures ExistsIn(stamp, z) ==> Resolved(stamp, reference).Some?
      ensures !IsFeb29(stamp) ==> (ExistsIn(stamp, z) <==> MIN_YEAR <= z <= MAX_YEAR)
    {
      ExistsUnlessFeb29(stamp, z);
      InstantIn(stamp, z);
      if ExistsIn(stamp, z) {
        NearestBeats(stamp, reference, y - 1, 3, z, YearlessIn(stamp, z).value);
      }
    }
  }

  /** Away from the ends of the range every stamp but Feb 29 resolves within 183 days of the reference. */
  lemma {:induction false} WithinHalfYear(stamp: Stamp, reference: int)
    requires IsStamp(stamp) && !IsFeb29(stamp) && MIN_YEAR < ReferenceYear(reference) < MAX_YEAR
    ensures Resolved(stamp, reference).Some?
    ensures Distance(Resolved(stamp, reference).value, reference) <= 183 * DAY
  {
    var y := ReferenceYear(reference);
    hide YearlessIn, ReferenceYear, DaysBeforeYear, NearestOf, IsStamp, ExistsIn;
    ReferenceSpan(reference);
    var before := InstantBetween(stamp, y - 1);
    var same := InstantBetween(stamp, y);
    var after := InstantBetween(stamp, y + 1);
    NearestBeats(stamp, reference, y - 1, 3, y - 1, before);
    NearestBeats(stamp, reference, y - 1, 3, y, same);
    NearestBeats(stamp, reference, y - 1, 3, y + 1, after);
    YearGap(stamp, y - 1, before, same);
    YearGap(stamp, y, same, after);
  }

  lemma {:induction false} InstantBetween(stamp: Stamp, year: int) returns (t: int)
    requires IsStamp(stamp) && !IsFeb29(stamp) && MIN_YEAR <= year <= MAX_YEAR
    ensures YearlessIn(stamp, year) == Some(t)
    ensures DaysBeforeYear(year) * DAY <= t < DaysBeforeYear(year + 1) * DAY
  {
    hide YearlessIn, DaysBeforeYear, IsStamp, ExistsIn;
    ExistsUnlessFeb29(stamp, year);
    InstantIn(stamp, year);
    t := YearlessIn(stamp, year).value;
    InstantSpan(stamp, year, t);
  }

  /** Feb 29 can be missing from all three candidate years: in 2101 it resolves to nothing, although 2104
      has it. */
  lemma {:induction false} Feb29CanBeAbsent()
    ensures var reference := DaysBeforeYear(2101) * DAY; var stamp := Stamp(2, 29, 0);
      Resolved(stamp, reference) == None && YearlessIn(stamp, 2104).Some?
  {
    hide DaysBeforeYear, CivilFromDays, YearlessIn, DayNumber, NearestOf, ReferenceYear;
    YearStart(2101);
    ResolvedPresentExactly(Stamp(2, 29, 0), DaysBeforeYear(2101) * DAY);
    InstantIn(Stamp(2, 29, 0), 2104);
  }

  lemma {:induction false} YearStart(year: int)
    ensures ReferenceYear(DaysBeforeYear(year) * DAY) == year
  {
    CivilOfDayNumber(Date(year, 1, 1));
    assert DayNumber(Date(year, 1, 1)) == DaysBeforeYear(year);
    hide DaysBeforeYear, CivilFromDays;
    assert DaysBeforeYear(year) * DAY / DAY == DaysBeforeYear(year);
  }

  // ----- the true time is recovered -----

  /** The stamp a program prints for an instant, without its year. */
  function StampOf(t: int): Stamp {
    var x := CivilFromDays(t / DAY);
    Stamp(x.month, x.day, t % DAY / NANOS_PER_MILLI)
  }

  predicate Printable(t: int) {
    t % NANOS_PER_MILLI == 0 && MIN_YEAR <= ReferenceYear(t) <= MAX_YEAR
  }

  lemma {:induction false} StampOfIsStamp(t: int)
    ensures IsStamp(StampOf(t))
    ensures Printable(t) ==> YearlessIn(StampOf(t), ReferenceYear(t)) == Some(t)
  {
    hide CivilFromDays, DayNumber, YearlessIn;
    DayNumberOfCivil(t / DAY);
    StampInRange(CivilFromDays(t / DAY), t % DAY);
    hide IsStamp, IsDate;
    if Printable(t) {
      InstantIn(StampOf(t), ReferenceYear(t));
      MilliOfDay(t);
    }
  }

  lemma {:induction false} StampInRange(x: Date, nanos: int)
    requires IsDate(x) && 0 <= nanos < DAY
    ensures IsStamp(Stamp(x.month, x.day, nanos / NANOS_PER_MILLI))
  {
  }

  lemma {:induction false} MilliOfDay(t: int)
    requires t % NANOS_PER_MILLI == 0
    ensures t / DAY * DAY + t % DAY / NANOS_PER_MILLI * NANOS_PER_MILLI == t
  {
    var r := t % DAY;
    assert t == (t / DAY) * 86_400_000 * NANOS_PER_MILLI + r;
    Bits.QuotientIs(t, NANOS_PER_MILLI, t / DAY * 86_400_000 + r / NANOS_PER_MILLI, r % NANOS_PER_MILLI);
  }

  /** A printed time less than half a common year from the reference is recovered exactly. */
  lemma {:induction false} NearTimesRecovered(t: int, reference: int)
    requires Printable(t) && 2 * Distance(t, reference) < 365 * DAY
    ensures Resolved(StampOf(t), reference) == Some(t)
  {
    hide YearlessIn, ReferenceYear, StampOf, NearestOf, Printable, IsStamp;
    var stamp, y := StampOf(t), ReferenceYear(reference);
    StampOfIsStamp(t);
    NearYears(t, reference);
    NearestBeats(stamp, reference, y - 1, 3, ReferenceYear(t), t);
    var c := NearestYear(stamp, reference, y - 1, 3);
    if c != ReferenceYear(t) {
      FarApart(stamp, c, ReferenceYear(t), Resolved(stamp, reference).value, t);
    }
  }

  lemma {:induction false} NearYears(t: int, reference: int)
    requires 2 * Distance(t, reference) < 365 * DAY
    ensures ReferenceYear(reference) - 1 <= ReferenceYear(t) <= ReferenceYear(reference) + 1
  {
    hide ReferenceYear, DaysBeforeYear;
    var y, z := ReferenceYear(reference), ReferenceYear(t);
    ReferenceSpan(t);
    ReferenceSpan(reference);
    if z > y + 1 {
      YearsApart(y + 1, z);
    } else if z < y - 1 {
      YearsApart(z + 1, y);
    }
  }

  lemma {:induction false} FarApart(stamp: Stamp, y: int, z: int, t: int, u: int)
    requires IsStamp(stamp) && YearlessIn(stamp, y) == Some(t) && YearlessIn(stamp, z) == Some(u) && y != z
    ensures Distance(t, u) >= 365 * DAY
  {
    hide YearlessIn, IsStamp;
    if y > z {
      ApartAscending(stamp, z, y, u, t);
    } else {
      ApartAscending(stamp, y, z, t, u);
    }
  }

  lemma {:induction false} ApartAscending(stamp: Stamp, y: int, z: int, t: int, u: int)
    requires IsStamp(stamp) && YearlessIn(stamp, y) == Some(t) && YearlessIn(stamp, z) == Some(u) && y < z
    ensures u - t >= 365 * DAY
  {
    hide YearlessIn, DaysBeforeYear, ExistsIn, IsStamp;
    if z == y + 1 {
      YearGap(stamp, y, t, u);
    } else {
      InstantSpan(stamp, y, t);
      InstantSpan(stamp, z, u);
      YearsApart(y + 1, z);
    }
  }

  // ----- one stream -----

  datatype EventTime = Untimed | Instant(t: int) | Yearless(stamp: Stamp)

  function Step(reference: Option<int>, time: EventTime): Option<int> {
    match time
    case Untimed => None
    case Instant(t) => Some(t)
    case Yearless(stamp) => if reference.None? then None else Resolved(stamp, reference.value)
  }

  /** The last timed event: what the next yearless stamp reads. */
  function Last(reference: Option<int>, resolved: Option<int>): Option<int> {
    if resolved.Some? then resolved else reference
  }

  /** The times a stream's events resolve to, from a starting reference. */
  function Run(reference: Option<int>, events: seq<EventTime>): (times: seq<Option<int>>)
    ensures |times| == |events|
    decreases |events|
  {
    if events == [] then []
    else
      var resolved := Step(reference, events[0]);
      [resolved] + Run(Last(reference, resolved), events[1..])
  }

  function LastTimed(reference: Option<int>, times: seq<Option<int>>): Option<int>
    decreases |times|
  {
    if times == [] then reference else LastTimed(Last(reference, times[0]), times[1..])
  }

  /** The tokenizer's state for one stream. */
  class EventClock {
    var yearReference: Option<int>

    constructor ()
      ensures yearReference == None
    {
      yearReference := None;
    }

    /** `declare`: a new stream context forgets the year. */
    method Declare()
      modifies this
      ensures yearReference == None
    {
      yearReference := None;
    }

    /** `resolve_event_time`. */
    method ResolveEventTime(time: EventTime) returns (resolved: Option<int>)
      modifies this
      ensures resolved == Step(old(yearReference), time)
      ensures yearReference == Last(old(yearReference), resolved)
    {
      hide Resolved;
      resolved := if time.Instant? then Some(time.t) else None;
      if time.Yearless? && yearReference.Some? {
        resolved := ResolveYearless(time.stamp, yearReference.value);
      }
      if resolved.Some? {
        yearReference := resolved;
      }
    }

    /** A whole stream: the state machine's outputs are the run, and its state the last timed event. */
    method ResolveAll(events: seq<EventTime>) returns (times: seq<Option<int>>)
      modifies this
      ensures times == Run(old(yearReference), events)
      ensures yearReference == LastTimed(old(yearReference), times)
    {
      times := [];
      var i := 0;
      while i < |events|
        invariant 0 <= i <= |events| == |times| + |events[i..]|
        invariant Run(old(yearReference), events) == times + Run(yearReference, events[i..])
        invariant yearReference == LastTimed(old(yearReference), times)
      {
        hide Step;
        var resolved := ResolveEventTime(events[i]);
        assert events[i..][1..] == events[i + 1..];
        LastTimedSnoc(old(yearReference), times, resolved);
        times := times + [resolved];
        i := i + 1;
      }
      assert times + [] == times;
    }
  }

  lemma {:induction false} LastTimedSnoc(reference: Option<int>, times: seq<Option<int>>, t: Option<int>)
    ensures LastTimed(reference, times + [t]) == Last(LastTimed(reference, times), t)
    decreases |times|
  {
    if times == [] {
      assert [] + [t] == [t];
      assert LastTimed(reference, [t]) == LastTimed(Last(reference, t), []);
    } else {
      assert (times + [t])[1..] == times[1..] + [t];
      LastTimedSnoc(Last(reference, times[0]), times[1..], t);
    }
  }

  /** Causality: an event's time depends on earlier lines only through the last timed one. */
  lemma {:induction false} RunAt(reference: Option<int>, events: seq<EventTime>, i: nat)
    requires i < |events|
    ensures Run(reference, events)[i] == Step(LastTimed(reference, Run(reference, events)[..i]), events[i])
    decreases i
  {
    hide Step;
    var resolved := Step(reference, events[0]);
    if i > 0 {
      RunAt(Last(reference, resolved), events[1..], i - 1);
      assert Run(reference, events)[..i] == [resolved] + Run(Last(reference, resolved), events[1..])[..i - 1];
    }
  }

  /** Over any run, a yearless event is absent until a timed event exists, and is then the nearest reading
      of its stamp, within 183 days of the last timed event away from the ends of the range. */
  lemma {:induction false} RunIsNearest(reference: Option<int>, events: seq<EventTime>, i: nat)
    requires i < |events| && events[i].Yearless? && IsStamp(events[i].stamp)
    ensures var times := Run(reference, events);
      var last := LastTimed(reference, times[..i]);
      && (last.None? ==> times[i].None?)
      && (last.Some? && times[i].Some? ==> IsNearest(events[i].stamp, last.value, times[i].value))
      && (last.Some? && !IsFeb29(events[i].stamp) && MIN_YEAR < ReferenceYear(last.value) < MAX_YEAR ==>
            times[i].Some? && Distance(times[i].value, last.value) <= 183 * DAY)
  {
    RunAt(reference, events, i);
    hide Run, LastTimed, Resolved, IsNearest, ReferenceYear, Distance;
    var last := LastTimed(reference, Run(reference, events)[..i]);
    var stamp := events[i].stamp;
    if last.Some? {
      if Resolved(stamp, last.value).Some? {
        ResolvedIsNearest(stamp, last.value);
      }
      if !IsFeb29(stamp) && MIN_YEAR < ReferenceYear(last.value) < MAX_YEAR {
        WithinHalfYear(stamp, last.value);
      }
    }
  }

  /** An instant re-anchors the stream: nothing before it matters after it. */
  lemma {:induction false} InstantReanchors(reference: Option<int>, before: seq<EventTime>, t: int, after: seq<EventTime>)
    ensures Run(reference, before + [Instant(t)] + after)[|before| + 1..] == Run(Some(t), after)
    decreases |before|
  {
    var events := before + [Instant(t)] + after;
    if before == [] {
      assert events[1..] == after;
      assert Run(reference, events) == [Some(t)] + Run(Some(t), after);
    } else {
      assert events[1..] == before[1..] + [Instant(t)] + after;
      InstantReanchors(Last(reference, Step(reference, events[0])), before[1..], t, after);
    }
  }

  /** Consecutive printed times less than half a common year apart. */
  predicate Steady(start: int, times: seq<int>)
    decreases |times|
  {
    times == [] || (Printable(times[0]) && 2 * Distance(times[0], start) < 365 * DAY && Steady(times[0], times[1..]))
  }

  function Stamps(times: seq<int>): seq<EventTime> {
    if times == [] then [] else [Yearless(StampOf(times[0]))] + Stamps(times[1..])
  }

  function Present(times: seq<int>): seq<Option<int>> {
    if times == [] then [] else [Some(times[0])] + Present(times[1..])
  }

  /** A stream that never moves by half a year between lines gets all its true times back from its
      yearless stamps, in whatever order they come. */
  lemma {:induction false} SteadyStreamRecovered(start: int, times: seq<int>)
    requires Steady(start, times)
    ensures Run(Some(start), Stamps(times)) == Present(times)
    decreases |times|
  {
    hide Resolved, StampOf, Printable, Distance;
    if times != [] {
      NearTimesRecovered(times[0], start);
      SteadyStreamRecovered(times[0], times[1..]);
      assert Stamps(times)[1..] == Stamps(times[1..]);
    }
  }
}
