/**
 The archive timestamps: three scripts turn one source date into a calendar date, and ZIP stores
 it in the DOS format (section 4.4.6 of APPNOTE).
 */
module Dates {

  datatype DateTime = DateTime(year: int, month: int, day: int, hour: int, minute: int, second: int)

  const MAX_EPOCH: nat := 0xFFFF_FFFF

  predicate IsLeap(year: int) {
    year % 4 == 0 && (year % 100 != 0 || year % 400 == 0)
  }

  function DaysInYear(year: int): (n: nat)
    ensures n == 365 || n == 366
  {
    if IsLeap(year) then 366 else 365
  }

  function DaysInMonth(year: int, month: int): (n: nat)
    requires 1 <= month <= 12
    ensures 28 <= n <= 31
  {
    if month == 2 then (if IsLeap(year) then 29 else 28)
    else if month in {4, 6, 9, 11} then 30
    else 31
  }

  predicate IsDate(year: int, month: int, day: int) {
    1 <= month <= 12 && 1 <= day <= DaysInMonth(year, month)
  }

  predicate IsDateTime(t: DateTime) {
    IsDate(t.year, t.month, t.day) && 0 <= t.hour < 24 && 0 <= t.minute < 60 && 0 <= t.second < 60
  }

  // ----- counting days, the reference -----

  /** Days from the start of 1970 to the start of a year. */
  function DaysToYear(year: int): nat
    requires year >= 1970
    decreases year
  {
    if year == 1970 then 0 else DaysToYear(year - 1) + DaysInYear(year - 1)
  }

  function DaysToMonth(year: int, month: int): nat
    requires 1 <= month <= 13
    decreases month
  {
    if month == 1 then 0 else DaysToMonth(year, month - 1) + DaysInMonth(year, month - 1)
  }

  /** Seconds from 1970 to a date and time, leap seconds aside. */
  function ToEpoch(t: DateTime): int
    requires t.year >= 1970 && IsDateTime(t)
  {
    (DaysToYear(t.year) + DaysToMonth(t.year, t.month) + t.day - 1) * 86400 + t.hour * 3600 + t.minute * 60 + t.second
  }

  // ----- `datetime.fromtimestamp(epoch, tz=UTC)` and `time.gmtime` -----

  function YearOf(days: nat, year: int): (r: (int, nat))
    requires year >= 1970
    ensures r.0 >= year && r.1 < DaysInYear(r.0)
    decreases days
  {
    if days < DaysInYear(year) then (year, days) else YearOf(days - DaysInYear(year), year + 1)
  }

  lemma MonthStep(year: int, month: int)
    requires 1 <= month <= 12
    ensures DaysToMonth(year, month + 1) == DaysToMonth(year, month) + DaysInMonth(year, month)
  {
  }

  function MonthOf(days: nat, year: int, month: int): (r: (int, nat))
    requires 1 <= month <= 12 && DaysToMonth(year, month) + days < DaysToMonth(year, 13)
    ensures month <= r.0 <= 12 && r.1 < DaysInMonth(year, r.0)
    decreases 12 - month
  {
    MonthStep(year, month);
    if days < DaysInMonth(year, month) then (month, days)
    else MonthOf(days - DaysInMonth(year, month), year, month + 1)
  }

  lemma YearLength(year: int)
    ensures DaysToMonth(year, 13) == DaysInYear(year)
  {
    assert DaysToMonth(year, 4) == DaysInMonth(year, 1) + DaysInMonth(year, 2) + DaysInMonth(year, 3);
    assert DaysToMonth(year, 7) ==
      DaysToMonth(year, 4) + DaysInMonth(year, 4) + DaysInMonth(year, 5) + DaysInMonth(year, 6);
    assert DaysToMonth(year, 10) ==
      DaysToMonth(year, 7) + DaysInMonth(year, 7) + DaysInMonth(year, 8) + DaysInMonth(year, 9);
  }

  function FromEpoch(epoch: nat): DateTime {
    var days, seconds := epoch / 86400, epoch % 86400;
    var (year, inYear) := YearOf(days, 1970);
    YearLength(year);
    var (month, inMonth) := MonthOf(inYear, year, 1);
    DateTime(year, month, inMonth + 1, seconds / 3600, seconds / 60 % 60, seconds % 60)
  }

  lemma {:induction false} YearOfCounts(days: nat, year: int)
    requires year >= 1970
    ensures var (y, rest) := YearOf(days, year);
      DaysToYear(year) + days == DaysToYear(y) + rest
    decreases days
  {
    if days >= DaysInYear(year) {
      YearOfCounts(days - DaysInYear(year), year + 1);
    }
  }

  lemma {:induction false} MonthOfCounts(days: nat, year: int, month: int)
    requires 1 <= month <= 12 && DaysToMonth(year, month) + days < DaysToMonth(year, 13)
    ensures var (m, rest) := MonthOf(days, year, month);
      DaysToMonth(year, month) + days == DaysToMonth(year, m) + rest
    decreases 12 - month
  {
    hide DaysToMonth, DaysInMonth;
    MonthStep(year, month);
    if days >= DaysInMonth(year, month) {
      MonthOfCounts(days - DaysInMonth(year, month), year, month + 1);
    }
  }

  lemma ClockParts(seconds: nat)
    requires seconds < 86400
    ensures seconds / 3600 < 24
    ensures seconds == seconds / 3600 * 3600 + seconds / 60 % 60 * 60 + seconds % 60
  {
    var minutes := seconds / 60;
    assert seconds == minutes * 60 + seconds % 60;
    assert minutes == minutes / 60 * 60 + minutes % 60;
    assert minutes / 60 == seconds / 3600;
  }

  /** The calendar conversion is right: it gives a real date whose distance from 1970 is the epoch. */
  lemma FromEpochIsExact(epoch: nat)
    ensures var t := FromEpoch(epoch);
      t.year >= 1970 && IsDateTime(t) && ToEpoch(t) == epoch
  {
    hide DaysToMonth, DaysInMonth, DaysToYear, DaysInYear, YearOf, MonthOf;
    var days, seconds := epoch / 86400, epoch % 86400;
    YearOfCounts(days, 1970);
    FirstDay();
    var (year, inYear) := YearOf(days, 1970);
    YearLength(year);
    MonthOfCounts(inYear, year, 1);
    ClockParts(seconds);
  }

  lemma FirstDay()
    ensures DaysToYear(1970) == 0
    ensures forall year {:trigger DaysToMonth(year, 1)} :: DaysToMonth(year, 1) == 0
  {
  }

  lemma {:induction false} YearsAreLong(year: int)
    requires year >= 1970
    ensures DaysToYear(year) >= 365 * (year - 1970)
    decreases year
  {
    if year > 1970 {
      YearsAreLong(year - 1);
    }
  }

  /** A 32-bit epoch stays before the year 2107. */
  lemma EpochYear(epoch: nat)
    requires epoch <= MAX_EPOCH
    ensures 1970 <= FromEpoch(epoch).year <= 2106
  {
    var days := epoch / 86400;
    YearOfCounts(days, 1970);
    YearsAreLong(FromEpoch(epoch).year);
  }

  // ----- the three timestamps -----

  function Clamped(year: int): int {
    if year < 1980 then 1980 else year
  }

  /** `reproducible_zip_dt` of the builder for a given epoch. */
  function BuilderTime(epoch: nat): DateTime {
    var t := FromEpoch(epoch);
    t.(year := Clamped(t.year))
  }

  /** `_canonical_source_zip_datetime` of the finalizer. */
  function FinalizerTime(epoch: nat): DateTime {
    var t := FromEpoch(epoch);
    t.(year := Clamped(t.year), second := t.second - t.second % 2)
  }

  /** `_wheel_timestamp`, which adjusts a list in place. */
  method WheelTimestamp(epoch: nat) returns (t: DateTime)
    ensures t == FinalizerTime(epoch)
  {
    var fields := FromEpoch(epoch);
    fields := fields.(year := Clamped(fields.year));
    fields := fields.(second := fields.second - fields.second % 2);
    return fields;
  }

  // ----- the DOS format -----

  datatype Dos = Dos(date: int, time: int)

  function EncodeDate(year: int, month: int, day: int): int {
    (year - 1980) * 512 + month * 32 + day
  }

  function EncodeTime(hour: int, minute: int, second: int): int {
    hour * 2048 + minute * 32 + second / 2
  }

  function EncodeDos(t: DateTime): Dos {
    Dos(EncodeDate(t.year, t.month, t.day), EncodeTime(t.hour, t.minute, t.second))
  }

  function DecodeDos(d: Dos): DateTime {
    DateTime(
      d.date / 512 + 1980, d.date / 32 % 16, d.date % 32,
      d.time / 2048, d.time / 32 % 64, d.time % 32 * 2)
  }

  /** Bit fields come apart again: a high part above a low part that fits below it. */
  lemma FieldsApart(high: int, low: int, size: int)
    requires 0 <= low < size
    ensures (high * size + low) / size == high && (high * size + low) % size == low
  {
    QuotientIsUnique(high * size + low, size, high, low);
  }

  lemma QuotientIsUnique(n: int, size: int, q: int, r: int)
    requires 0 < size && n == q * size + r && 0 <= r < size
    ensures n / size == q && n % size == r
  {
    var d := n / size - q;
    assert d * size == r - n % size;
  }

  lemma DateBack(year: int, month: int, day: int)
    requires 1980 <= year < 2108 && 0 <= month < 16 && 0 <= day < 32
    ensures var d := EncodeDate(year, month, day);
      0 <= d <= 0xFFFF && d / 512 + 1980 == year && d / 32 % 16 == month && d % 32 == day
  {
    FieldsApart(year - 1980, month * 32 + day, 512);
    FieldsApart((year - 1980) * 16 + month, day, 32);
    FieldsApart(year - 1980, month, 16);
  }

  lemma TimeBack(hour: int, minute: int, second: int)
    requires 0 <= hour < 32 && 0 <= minute < 64 && 0 <= second < 64
    ensures var t := EncodeTime(hour, minute, second);
      && 0 <= t <= 0xFFFF && t / 2048 == hour && t / 32 % 64 == minute
      && t % 32 * 2 == second - second % 2
  {
    FieldsApart(hour, minute * 32 + second / 2, 2048);
    FieldsApart(hour * 64 + minute, second / 2, 32);
    FieldsApart(hour, minute, 64);
  }

  /** The DOS format keeps everything but the parity of the second, for the years it has room for. */
  lemma DosRoundTrip(t: DateTime)
    requires IsDateTime(t) && 1980 <= t.year < 2108
    ensures 0 <= EncodeDos(t).date <= 0xFFFF && 0 <= EncodeDos(t).time <= 0xFFFF
    ensures DecodeDos(EncodeDos(t)) == t.(second := t.second - t.second % 2)
  {
    hide EncodeDate, EncodeTime;
    DateBack(t.year, t.month, t.day);
    TimeBack(t.hour, t.minute, t.second);
  }

  /** Moving an earlier year to 1980 never leaves a day that does not exist: 1980 is a leap year. */
  lemma ClampKeepsDate(year: int, month: int, day: int)
    requires IsDate(year, month, day)
    ensures IsDate(Clamped(year), month, day)
  {
  }

  /**
   For every 32-bit epoch the builder's timestamp, stored and read back, is the finalizer's and the
   wheel writer's; it is a real date and fits the 7-bit year field.
   */
  lemma TimestampsAgree(epoch: nat)
    requires epoch <= MAX_EPOCH
    ensures IsDateTime(BuilderTime(epoch)) && IsDateTime(FinalizerTime(epoch))
    ensures 0 <= BuilderTime(epoch).year - 1980 < 128
    ensures DecodeDos(EncodeDos(BuilderTime(epoch))) == FinalizerTime(epoch)
    ensures EncodeDos(BuilderTime(epoch)) == EncodeDos(FinalizerTime(epoch))
    ensures DecodeDos(EncodeDos(FinalizerTime(epoch))) == FinalizerTime(epoch)
  {
    hide FromEpoch;
    EpochYear(epoch);
    FromEpochIsExact(epoch);
    var t := FromEpoch(epoch);
    ClampKeepsDate(t.year, t.month, t.day);
    DosRoundTrip(BuilderTime(epoch));
    DosRoundTrip(FinalizerTime(epoch));
  }
}
