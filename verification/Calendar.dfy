/**
 The two calendar algorithms of the program: the instant of broken-down UTC fields
 (core/src/utils/time_utils.cpp, utc_mktime) and the civil date of a day number
 (core/src/transport/transport.cpp, civil_from_days). They are proved inverse to each other, and the
 day number is pinned down by the proleptic Gregorian successor of a date.
 */
module Calendar {
  import Bits
  import opened Wrappers

  const MIN_YEAR := 1678
  const MAX_YEAR := 2261
  const SECONDS_PER_DAY := 86400
  const NANOS_PER_SECOND := 1_000_000_000
  const NANOS_PER_MILLI := 1_000_000

  datatype Date = Date(year: int, month: int, day: int)

  /** The fields of `std::tm` that are read, as stored: years since 1900, months from 0. */
  datatype Tm = Tm(year: int, mon: int, mday: int, hour: int, min: int, sec: int)

  predicate IsLeap(year: int) {
    (year % 4 == 0 && year % 100 != 0) || year % 400 == 0
  }

  function LeapDay(year: int): int {
    if IsLeap(year) then 1 else 0
  }

  const DAYS_IN_MONTH: seq<int> := [31, 28, 31, 30, 31, 30, 31, 31, 30, 31, 30, 31]
  const MONTH_OFFSET: seq<int> := [0, 31, 59, 90, 120, 151, 181, 212, 243, 273, 304, 334]

  function DaysInMonth(year: int, month: int): (n: int)
    requires 1 <= month <= 12
  {
    DAYS_IN_MONTH[month - 1] + (if month == 2 && IsLeap(year) then 1 else 0)
  }

  predicate IsDate(x: Date) {
    1 <= x.month <= 12 && 1 <= x.day <= DaysInMonth(x.year, x.month)
  }

  predicate IsClock(hour: int, min: int, sec: int) {
    0 <= hour < 24 && 0 <= min < 60 && 0 <= sec < 60
  }

  /** The day after, by the rules of the Gregorian calendar. */
  function NextDate(x: Date): (n: Date)
    requires IsDate(x)
    ensures IsDate(n)
  {
    if x.day < DaysInMonth(x.year, x.month) then Date(x.year, x.month, x.day + 1)
    else if x.month < 12 then Date(x.year, x.month + 1, 1)
    else Date(x.year + 1, 1, 1)
  }

  /** Days from 1970-01-01 to the first day of `year`, as `utc_mktime` counts them. */
  function DaysBeforeYear(year: int): int {
    365 * (year - 1970) + ((year - 1) / 4 - 492) - ((year - 1) / 100 - 19) + ((year - 1) / 400 - 4)
  }

  function YearDay(x: Date): int
    requires IsDate(x)
  {
    MONTH_OFFSET[x.month - 1] + (if x.month > 2 && IsLeap(x.year) then 1 else 0) + x.day - 1
  }

  function DayNumber(x: Date): int
    requires IsDate(x)
  {
    DaysBeforeYear(x.year) + YearDay(x)
  }

  lemma {:induction false} YearLength(year: int)
    ensures DaysBeforeYear(year + 1) == DaysBeforeYear(year) + 365 + LeapDay(year)
  {
    QuotientStep(year, 4);
    QuotientStep(year, 100);
    QuotientStep(year, 400);
    LeapByDivision(year);
  }

  /** Floor division by a constant steps exactly at its multiples. */
  lemma {:induction false} QuotientStep(year: int, n: int)
    requires n == 4 || n == 100 || n == 400
    ensures year / n - (year - 1) / n == if year % n == 0 then 1 else 0
  {
  }

  lemma {:induction false} LeapByDivision(year: int)
    ensures LeapDay(year) ==
            (if year % 4 == 0 then 1 else 0) - (if year % 100 == 0 then 1 else 0) + (if year % 400 == 0 then 1 else 0)
  {
    var q, r := year / 400, year % 400;
    assert year == 400 * q + r;
    Bits.QuotientIs(year, 100, 4 * q + r / 100, r % 100);
    Bits.QuotientIs(year, 4, 100 * q + r / 4, r % 4);
  }

  lemma {:induction false} YearDayBounds(x: Date)
    requires IsDate(x)
    ensures 0 <= YearDay(x) < 365 + LeapDay(x.year)
  {
  }

  /** `years` later starts at least `365 * years` days later. */
  lemma {:induction false} YearsApart(first: int, last: int)
    requires first <= last
    ensures 365 * (last - first) <= DaysBeforeYear(last) - DaysBeforeYear(first) <= 366 * (last - first)
    decreases last - first
  {
    hide DaysBeforeYear;
    if first < last {
      YearsApart(first, last - 1);
      YearLength(last - 1);
    }
  }

  /** The day number counts days from the epoch: it starts at 0 and each next date adds one. */
  lemma {:induction false} DayNumberCounts(x: Date)
    requires IsDate(x)
    ensures DayNumber(NextDate(x)) == DayNumber(x) + 1
    ensures DayNumber(Date(1970, 1, 1)) == 0
  {
    assert DaysBeforeYear(1970) == 0;
    hide DaysBeforeYear, IsDate, IsLeap;
    YearLength(x.year);
    YearDayNext(x);
  }

  /** Within a year the next date is one day further; after the last one the year is over. */
  lemma {:induction false} YearDayNext(x: Date)
    requires IsDate(x)
    ensures var n := NextDate(x);
      if n.year == x.year then YearDay(n) == YearDay(x) + 1
      else n.year == x.year + 1 && YearDay(n) == 0 && YearDay(x) == 364 + LeapDay(x.year)
  {
    hide DaysBeforeYear;
  }

  predicate DateBefore(x: Date, y: Date) {
    x.year < y.year || (x.year == y.year && (x.month < y.month || (x.month == y.month && x.day < y.day)))
  }

  lemma {:induction false} DayNumberMonotone(x: Date, y: Date)
    requires IsDate(x) && IsDate(y)
    ensures DateBefore(x, y) <==> DayNumber(x) < DayNumber(y)
    ensures x == y <==> DayNumber(x) == DayNumber(y)
  {
    YearDayBounds(x);
    YearDayBounds(y);
    if x.year == y.year {
      YearDayMonotone(x, y);
    } else if x.year < y.year {
      YearLength(x.year);
      YearsApart(x.year + 1, y.year);
      hide DaysBeforeYear, YearDay;
    } else {
      YearLength(y.year);
      YearsApart(y.year + 1, x.year);
      hide DaysBeforeYear, YearDay;
    }
  }

  lemma {:induction false} YearDayMonotone(x: Date, y: Date)
    requires IsDate(x) && IsDate(y) && x.year == y.year
    ensures DateBefore(x, y) <==> YearDay(x) < YearDay(y)
    ensures x == y <==> YearDay(x) == YearDay(y)
  {
    if x.month < y.month {
      MonthEnds(x, y);
    } else if y.month < x.month {
      MonthEnds(y, x);
    }
  }

  lemma {:induction false} MonthEnds(x: Date, y: Date)
    requires IsDate(x) && IsDate(y) && x.year == y.year && x.month < y.month
    ensures YearDay(x) < YearDay(y)
  {
  }

  // ----- civil_from_days -----

  /** C++ integer division, which truncates toward zero. */
  function TruncatedDiv(x: int, y: int): int
    requires y > 0
  {
    if x >= 0 then x / y else -((-x) / y)
  }

  function CivilFromDays(days: int): Date {
    var shifted := days + 719468;
    var era := TruncatedDiv(if shifted >= 0 then shifted else shifted - 146096, 146097);
    CivilFromEra(era, shifted - era * 146097)
  }

  function CivilFromEra(era: int, dayOfEra: int): Date {
    var yearOfEra := YearOfEraFormula(dayOfEra);
    var year := yearOfEra + era * 400;
    var dayOfYear := dayOfEra - (365 * yearOfEra + yearOfEra / 4 - yearOfEra / 100);
    CivilFromMarch(year, dayOfYear)
  }

  function YearOfEraFormula(dayOfEra: int): int {
    (dayOfEra - dayOfEra / 1460 + dayOfEra / 36524 - dayOfEra / 146096) / 365
  }

  /** The civil date of a day of a year that starts in March. */
  function CivilFromMarch(year: int, dayOfYear: int): Date {
    var shiftedMonth := (5 * dayOfYear + 2) / 153;
    var day := dayOfYear - (153 * shiftedMonth + 2) / 5 + 1;
    var month := if shiftedMonth < 10 then shiftedMonth + 3 else shiftedMonth - 9;
    Date(year + (if month <= 2 then 1 else 0), month, day)
  }

  /** The algorithm's era is the floor of the shifted day number. */
  lemma {:induction false} EraIsFloor(shifted: int)
    ensures TruncatedDiv(if shifted >= 0 then shifted else shifted - 146096, 146097) == shifted / 146097
  {
  }

  /** A year of a 400-year era that starts in March, split into centuries, quadrennia and years. */
  datatype Split = Split(century: int, quad: int, rest: int)

  predicate IsSplit(t: Split) {
    0 <= t.century < 4 && 0 <= t.quad < 25 && 0 <= t.rest < 4
  }

  function YearOfEra(t: Split): int {
    100 * t.century + 4 * t.quad + t.rest
  }

  function SplitOf(yearOfEra: int): (t: Split)
    requires 0 <= yearOfEra < 400
    ensures IsSplit(t) && YearOfEra(t) == yearOfEra
  {
    Split(yearOfEra / 100, yearOfEra % 100 / 4, yearOfEra % 4)
  }

  /** A March-based year ends with Feb 29 when the civil year after it is leap. */
  function MarchYearLength(t: Split): int {
    if t.rest == 3 && (t.quad != 24 || t.century == 3) then 366 else 365
  }

  function DayOfEra(t: Split, dayOfYear: int): int {
    36524 * t.century + 1461 * t.quad + 365 * t.rest + dayOfYear
  }

  lemma {:induction false} EraDays(t: Split, dayOfYear: int)
    requires IsSplit(t) && 0 <= dayOfYear < MarchYearLength(t)
    ensures 0 <= DayOfEra(t, dayOfYear) < 146097
    ensures var y := YearOfEra(t); DayOfEra(t, dayOfYear) == 365 * y + y / 4 - y / 100 + dayOfYear
  {
    var y := YearOfEra(t);
    assert y / 4 == 25 * t.century + t.quad;
    assert y / 100 == t.century;
  }

  /** The correction terms of the year-of-era formula, term by term. */
  lemma {:induction false} YearOfEraRecovered(t: Split, dayOfYear: int)
    requires IsSplit(t) && 0 <= dayOfYear < MarchYearLength(t)
    ensures YearOfEraFormula(DayOfEra(t, dayOfYear)) == YearOfEra(t)
  {
    var doe := DayOfEra(t, dayOfYear);
    CenturyTerm(t, dayOfYear);
    QuadTerm(t, dayOfYear);
    var w := (24 * t.century + t.quad + 365 * t.rest + dayOfYear) / 1460;
    assert 0 <= dayOfYear - w < 365;
    assert doe - doe / 1460 + t.century == 365 * YearOfEra(t) + (dayOfYear - w);
  }

  lemma {:induction false} CenturyTerm(t: Split, dayOfYear: int)
    requires IsSplit(t) && 0 <= dayOfYear < MarchYearLength(t)
    ensures var doe := DayOfEra(t, dayOfYear); doe / 36524 - doe / 146096 == t.century
  {
    var doe := DayOfEra(t, dayOfYear);
    assert doe < 36524 * (t.century + 1) || doe == 146096;
  }

  lemma {:induction false} QuadTerm(t: Split, dayOfYear: int)
    requires IsSplit(t)
    ensures DayOfEra(t, dayOfYear) / 1460 ==
            25 * t.century + t.quad + (24 * t.century + t.quad + 365 * t.rest + dayOfYear) / 1460
  {
  }

  const MARCH_LENGTH: seq<int> := [31, 30, 31, 30, 31, 31, 30, 31, 30, 31, 31, 29]

  /** Days before the shifted month `m`, March being 0. */
  function BeforeMarchMonth(m: int): int {
    (153 * m + 2) / 5
  }

  lemma {:induction false} MonthRecovered(m: int, day: int)
    requires 0 <= m < 12 && 1 <= day <= MARCH_LENGTH[m]
    ensures (5 * (BeforeMarchMonth(m) + day - 1) + 2) / 153 == m
  {
  }

  function ShiftedMonth(month: int): int {
    if month > 2 then month - 3 else month + 9
  }

  /** The year whose March the date follows. */
  function MarchYear(x: Date): int {
    if x.month <= 2 then x.year - 1 else x.year
  }

  function MarchDay(x: Date): int {
    BeforeMarchMonth(ShiftedMonth(x.month)) + x.day - 1
  }

  lemma {:induction false} MarchDayBounds(x: Date)
    requires IsDate(x)
    ensures 0 <= MarchDay(x) < 365 + LeapDay(MarchYear(x) + 1)
    ensures x.day <= MARCH_LENGTH[ShiftedMonth(x.month)]
  {
  }

  lemma {:induction false} LeapOfEra(e: int, t: Split)
    requires IsSplit(t)
    ensures MarchYearLength(t) == 365 + LeapDay(400 * e + YearOfEra(t) + 1)
  {
    LeapInEra(e, YearOfEra(t) + 1);
    LeapInSplit(t);
  }

  lemma {:induction false} LeapInEra(e: int, y: int)
    ensures IsLeap(400 * e + y) == IsLeap(y)
  {
    RemainderShift(y, 100 * e, 4);
    RemainderShift(y, 4 * e, 100);
    RemainderShift(y, e, 400);
  }

  lemma {:induction false} RemainderShift(y: int, k: int, n: int)
    requires n == 4 || n == 100 || n == 400
    ensures (n * k + y) % n == y % n
  {
  }

  lemma {:induction false} LeapInSplit(t: Split)
    requires IsSplit(t)
    ensures MarchYearLength(t) == 365 + LeapDay(YearOfEra(t) + 1)
  {
    var y := YearOfEra(t) + 1;
    if t.rest < 3 {
      assert y == 4 * (25 * t.century + t.quad) + (t.rest + 1);
      assert y % 4 != 0;
      assert y % 400 != 0;
    } else {
      assert y == 4 * (25 * t.century + t.quad + 1);
      if t.quad == 24 {
        assert y == 100 * (t.century + 1);
      } else {
        assert y == 100 * t.century + 4 * (t.quad + 1);
        assert y % 100 == 4 * (t.quad + 1);
      }
    }
  }

  /** The March-based count and the January-based count of the same date agree. */
  lemma {:induction false} MarchCount(x: Date, e: int, t: Split)
    requires IsDate(x) && IsSplit(t) && MarchYear(x) == 400 * e + YearOfEra(t)
    ensures DayNumber(x) + 719468 == 146097 * e + DayOfEra(t, MarchDay(x))
  {
    EraQuotients(e, t);
    if x.month > 2 {
      YearLength(x.year);
    }
    MarchOffset(x);
    hide YearDay, MarchDay, IsDate, LeapDay;
  }

  lemma {:induction false} EraQuotients(e: int, t: Split)
    requires IsSplit(t)
    ensures DaysBeforeYear(400 * e + YearOfEra(t) + 1) + 719468 - 306 == 146097 * e + DayOfEra(t, 0)
  {
    var y := 400 * e + YearOfEra(t);
    assert y / 4 == 100 * e + 25 * t.century + t.quad;
    assert y / 100 == 4 * e + t.century;
    assert y / 400 == e;
  }

  lemma {:induction false} MarchOffset(x: Date)
    requires IsDate(x)
    ensures MarchDay(x) == if x.month > 2 then YearDay(x) - 59 - LeapDay(x.year) else YearDay(x) + 306
  {
  }

  /** The algorithm on a day number given by its era, year of the era and day of that year. */
  lemma {:induction false} CivilOfEra(days: int, e: int, t: Split, dayOfYear: int)
    requires IsSplit(t) && 0 <= dayOfYear < MarchYearLength(t)
    requires days + 719468 == 146097 * e + DayOfEra(t, dayOfYear)
    ensures CivilFromDays(days) == CivilFromMarch(400 * e + YearOfEra(t), dayOfYear)
  {
    EraDays(t, dayOfYear);
    YearOfEraRecovered(t, dayOfYear);
    EraOf(days, e, DayOfEra(t, dayOfYear));
    hide DayOfEra, YearOfEra, MarchYearLength, CivilFromDays, YearOfEraFormula, CivilFromMarch, CivilFromEra;
    CivilOfYear(e, YearOfEra(t), DayOfEra(t, dayOfYear), dayOfYear);
  }

  lemma {:induction false} CivilOfYear(e: int, y: int, dayOfEra: int, dayOfYear: int)
    requires YearOfEraFormula(dayOfEra) == y && dayOfEra == 365 * y + y / 4 - y / 100 + dayOfYear
    ensures CivilFromEra(e, dayOfEra) == CivilFromMarch(400 * e + y, dayOfYear)
  {
    hide YearOfEraFormula, CivilFromMarch;
  }

  lemma {:induction false} EraOf(days: int, e: int, dayOfEra: int)
    requires days + 719468 == 146097 * e + dayOfEra && 0 <= dayOfEra < 146097
    ensures CivilFromDays(days) == CivilFromEra(e, dayOfEra)
  {
    EraIsFloor(days + 719468);
    hide TruncatedDiv, CivilFromEra;
    Bits.QuotientIs(days + 719468, 146097, e, dayOfEra);
  }

  lemma {:induction false} CivilOfMarch(x: Date)
    requires IsDate(x)
    ensures CivilFromMarch(MarchYear(x), MarchDay(x)) == x
  {
    MarchDayBounds(x);
    MonthRecovered(ShiftedMonth(x.month), x.day);
    hide LeapDay, DaysInMonth;
  }

  /** From a date to its day number and back, for every year. */
  lemma {:induction false} CivilOfDayNumber(x: Date)
    requires IsDate(x)
    ensures CivilFromDays(DayNumber(x)) == x
  {
    hide DayNumber, DayOfEra, YearOfEra, MarchYearLength, CivilFromDays, LeapDay, CivilFromMarch, MarchDay, MarchYear;
    var e, t := EraSplit(MarchYear(x));
    MarchCount(x, e, t);
    MarchDayBounds(x);
    LeapOfEra(e, t);
    CivilOfMarch(x);
    CivilOfEra(DayNumber(x), e, t, MarchDay(x));
  }

  lemma {:induction false} EraSplit(year: int) returns (e: int, t: Split)
    ensures IsSplit(t) && year == 400 * e + YearOfEra(t)
  {
    e, t := year / 400, SplitOf(year % 400);
  }

  /** Every day of an era lies in one of its years. */
  lemma {:induction false} EraCovered(doe: int) returns (t: Split, dayOfYear: int)
    requires 0 <= doe < 146097
    ensures IsSplit(t) && 0 <= dayOfYear < MarchYearLength(t) && doe == DayOfEra(t, dayOfYear)
  {
    var c := if doe == 146096 then 3 else doe / 36524;
    var inCentury := doe - 36524 * c;
    var q := inCentury / 1461;
    var inQuad := inCentury - 1461 * q;
    var r := if inQuad == 1460 then 3 else inQuad / 365;
    t, dayOfYear := Split(c, q, r), inQuad - 365 * r;
  }

  /** The date with a given March-based year and day of that year. */
  lemma {:induction false} MarchDate(marchYear: int, dayOfYear: int) returns (x: Date)
    requires 0 <= dayOfYear < 365 + LeapDay(marchYear + 1)
    ensures IsDate(x) && MarchYear(x) == marchYear && MarchDay(x) == dayOfYear
  {
    var m := (5 * dayOfYear + 2) / 153;
    var month := if m < 10 then m + 3 else m - 9;
    x := Date(if month <= 2 then marchYear + 1 else marchYear, month, dayOfYear - BeforeMarchMonth(m) + 1);
  }

  /** From a day number to its date and back, for every day: the two algorithms are inverse bijections. */
  lemma {:induction false} DayNumberOfCivil(days: int)
    ensures IsDate(CivilFromDays(days)) && DayNumber(CivilFromDays(days)) == days
  {
    var e := (days + 719468) / 146097;
    var t, dayOfYear := EraCovered(days + 719468 - 146097 * e);
    LeapOfEra(e, t);
    var x := MarchDate(400 * e + YearOfEra(t), dayOfYear);
    MarchCount(x, e, t);
    CivilOfDayNumber(x);
    hide CivilFromDays, DayNumber, DayOfEra, YearOfEra, MarchDay, IsDate, MarchYearLength, LeapDay;
  }

  /** The civil year of a day is the one whose span of days holds it. */
  lemma {:induction false} CivilYearSpan(days: int)
    ensures var y := CivilFromDays(days).year; DaysBeforeYear(y) <= days < DaysBeforeYear(y + 1)
  {
    DayNumberOfCivil(days);
    var x := CivilFromDays(days);
    YearDayBounds(x);
    YearLength(x.year);
    hide CivilFromDays, YearDay, DaysBeforeYear;
  }

  // ----- utc_mktime -----

  /** The seconds since the epoch of broken-down UTC fields, refused when a field is out of range. */
  function UtcMktime(tm: Tm): Option<int> {
    var year, month := tm.year + 1900, tm.mon + 1;
    if month < 1 || month > 12 then None
    else if year < MIN_YEAR || year > MAX_YEAR then None
    else
      var leap := (year % 4 == 0 && year % 100 != 0) || year % 400 == 0;
      var daysInMonth := DAYS_IN_MONTH[month - 1] + (if month == 2 && leap then 1 else 0);
      if tm.mday < 1 || tm.mday > daysInMonth then None
      else if tm.hour < 0 || tm.hour >= 24 || tm.min < 0 || tm.min >= 60 || tm.sec < 0 || tm.sec >= 60 then None
      else
        var prevYear := year - 1;
        var daysToYear := 365 * (year - 1970) + (TruncatedDiv(prevYear, 4) - 492) -
                          (TruncatedDiv(prevYear, 100) - 19) + (TruncatedDiv(prevYear, 400) - 4);
        var yday := MONTH_OFFSET[month - 1] + (if month > 2 && leap then 1 else 0) + tm.mday - 1;
        Some((daysToYear + yday) * SECONDS_PER_DAY + tm.hour * 3600 + tm.min * 60 + tm.sec)
  }

  function DateOf(tm: Tm): Date {
    Date(tm.year + 1900, tm.mon + 1, tm.mday)
  }

  function ClockSeconds(tm: Tm): int {
    tm.hour * 3600 + tm.min * 60 + tm.sec
  }

  predicate Accepted(tm: Tm) {
    MIN_YEAR <= tm.year + 1900 <= MAX_YEAR && IsDate(DateOf(tm)) && IsClock(tm.hour, tm.min, tm.sec)
  }

  /** Exactly the dates and clock readings that exist in the representable years are accepted, each at its
      own instant. */
  lemma {:induction false} MktimeIsDayNumber(tm: Tm)
    ensures UtcMktime(tm).Some? <==> Accepted(tm)
    ensures Accepted(tm) ==> UtcMktime(tm) == Some(DayNumber(DateOf(tm)) * SECONDS_PER_DAY + ClockSeconds(tm))
  {
  }

  /** The fields of a date and a second of its day. */
  function FieldsOf(x: Date, second: int): Tm {
    Tm(x.year - 1900, x.month - 1, x.day, second / 3600, second / 60 % 60, second % 60)
  }

  /** The fields read off an instant: `civil_from_days` of its floored day, and the clock of the rest. */
  function FieldsAt(t: int): Tm {
    FieldsOf(CivilFromDays(t / SECONDS_PER_DAY), t % SECONDS_PER_DAY)
  }

  lemma {:induction false} SplitInstant(days: int, second: int)
    requires 0 <= second < SECONDS_PER_DAY
    ensures (days * SECONDS_PER_DAY + second) / SECONDS_PER_DAY == days
    ensures (days * SECONDS_PER_DAY + second) % SECONDS_PER_DAY == second
  {
    Bits.QuotientIs(days * SECONDS_PER_DAY + second, SECONDS_PER_DAY, days, second);
  }

  lemma {:induction false} FieldsOfClock(tm: Tm)
    requires IsClock(tm.hour, tm.min, tm.sec)
    ensures 0 <= ClockSeconds(tm) < SECONDS_PER_DAY
    ensures FieldsOf(DateOf(tm), ClockSeconds(tm)) == tm
  {
    var s := ClockSeconds(tm);
    Bits.QuotientIs(s, 3600, tm.hour, tm.min * 60 + tm.sec);
    Bits.QuotientIs(s, 60, 60 * tm.hour + tm.min, tm.sec);
    Bits.QuotientIs(60 * tm.hour + tm.min, 60, tm.hour, tm.min);
  }

  /** Calendar inverse: the fields read off the instant of accepted fields are those fields. */
  lemma {:induction false} CivilOfMktime(tm: Tm)
    requires Accepted(tm)
    ensures FieldsAt(UtcMktime(tm).value) == tm
  {
    hide UtcMktime, DayNumber, CivilFromDays, IsDate, DateOf, ClockSeconds, FieldsOf, FieldsAt, IsClock;
    MktimeIsDayNumber(tm);
    CivilOfDayNumber(DateOf(tm));
    FieldsOfClock(tm);
    FieldsAtSplit(DayNumber(DateOf(tm)), ClockSeconds(tm));
  }

  lemma {:induction false} FieldsAtSplit(days: int, second: int)
    requires 0 <= second < SECONDS_PER_DAY
    ensures FieldsAt(days * SECONDS_PER_DAY + second) == FieldsOf(CivilFromDays(days), second)
  {
    hide FieldsOf, CivilFromDays;
    SplitInstant(days, second);
  }

  lemma {:induction false} ClockOfFields(x: Date, second: int)
    requires 0 <= second < SECONDS_PER_DAY
    ensures var tm := FieldsOf(x, second); IsClock(tm.hour, tm.min, tm.sec) && ClockSeconds(tm) == second && DateOf(tm) == x
  {
    Bits.QuotientIs(second / 60, 60, second / 3600, second / 60 % 60);
  }

  lemma {:induction false} MktimeAt(x: Date, second: int)
    requires IsDate(x) && MIN_YEAR <= x.year <= MAX_YEAR && 0 <= second < SECONDS_PER_DAY
    ensures UtcMktime(FieldsOf(x, second)) == Some(DayNumber(x) * SECONDS_PER_DAY + second)
  {
    ClockOfFields(x, second);
    MktimeIsDayNumber(FieldsOf(x, second));
    hide UtcMktime, DayNumber, IsDate, FieldsOf, ClockSeconds;
  }

  /** The other inverse: the fields read off any second of the representable years give that second back. */
  lemma {:induction false} MktimeOfCivil(t: int)
    requires MIN_YEAR <= CivilFromDays(t / SECONDS_PER_DAY).year <= MAX_YEAR
    ensures UtcMktime(FieldsAt(t)) == Some(t)
  {
    DayNumberOfCivil(t / SECONDS_PER_DAY);
    hide UtcMktime, DayNumber, CivilFromDays, IsDate, FieldsOf;
    MktimeAt(CivilFromDays(t / SECONDS_PER_DAY), t % SECONDS_PER_DAY);
  }

  predicate FieldsBefore(a: Tm, b: Tm) {
    DateBefore(DateOf(a), DateOf(b)) ||
    (DateOf(a) == DateOf(b) && (a.hour < b.hour || (a.hour == b.hour && (a.min < b.min || (a.min == b.min && a.sec < b.sec)))))
  }

  /** Instants are strictly monotone in the lexicographic order of the fields. */
  lemma {:induction false} MktimeMonotone(a: Tm, b: Tm)
    requires Accepted(a) && Accepted(b)
    ensures FieldsBefore(a, b) <==> UtcMktime(a).value < UtcMktime(b).value
  {
    MktimeIsDayNumber(a);
    MktimeIsDayNumber(b);
    DayNumberMonotone(DateOf(a), DateOf(b));
    hide UtcMktime, DayNumber, IsDate, DateBefore;
    assert 0 <= ClockSeconds(a) < SECONDS_PER_DAY && 0 <= ClockSeconds(b) < SECONDS_PER_DAY;
  }
}
