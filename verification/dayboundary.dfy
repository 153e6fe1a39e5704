/**
 The day-boundary helpers: both keep the calendar date and the location of a
 time value and overwrite its time of day, one with midnight and one with the
 last nanosecond before the next midnight.

 A time value is modelled by its wall-clock fields. The location is a type
 parameter: nothing here looks inside it, it is only carried along.
 */
module DayBoundary {

  datatype DateTime<L> = DateTime(
    year: int,
    month: int,
    day: int,
    hour: int,
    minute: int,
    second: int,
    nanosecond: int,
    location: L)

  const NanosPerSecond: int := 1_000_000_000
  const SecondsPerDay: int := 24 * 60 * 60
  const NanosPerDay: int := SecondsPerDay * NanosPerSecond

  predicate IsLeapYear(year: int) {
    year % 4 == 0 && (year % 100 != 0 || year % 400 == 0)
  }

  /** The length of a month of the proleptic Gregorian calendar. */
  function DaysIn(year: int, month: int): int
    requires 1 <= month <= 12
  {
    if month == 2 then (if IsLeapYear(year) then 29 else 28)
    else if month == 4 || month == 6 || month == 9 || month == 11 then 30
    else 31
  }

  /** A time of day: every field within its range. */
  predicate ValidClock(hour: int, minute: int, second: int, nanosecond: int) {
    && 0 <= hour < 24
    && 0 <= minute < 60
    && 0 <= second < 60
    && 0 <= nanosecond < NanosPerSecond
  }

  /** The fields of a time value as the time library keeps them: a real date and a real time of day. */
  predicate Valid<L>(t: DateTime<L>) {
    && 1 <= t.month <= 12
    && 1 <= t.day <= DaysIn(t.year, t.month)
    && ValidClock(t.hour, t.minute, t.second, t.nanosecond)
  }

  /** Same calendar date in the same location. */
  predicate SameDay<L(==)>(t: DateTime<L>, u: DateTime<L>) {
    t.year == u.year && t.month == u.month && t.day == u.day && t.location == u.location
  }

  /** Nanoseconds elapsed on the wall clock since the midnight that starts the day. */
  function NanoOfDay<L>(t: DateTime<L>): int {
    ((t.hour * 60 + t.minute) * 60 + t.second) * NanosPerSecond + t.nanosecond
  }

  /**
   Overwrites the time of day of `t`, keeping its date and location. The
   clock values must be in range: both callers pass constants that are.
   */
  function SetTimeOnlyParts<L(==)>(t: DateTime<L>, hour: int, minute: int, second: int, nanosecond: int): (r: DateTime<L>)
    requires ValidClock(hour, minute, second, nanosecond)
    ensures SameDay(r, t)
    ensures Valid(t) ==> Valid(r)
    ensures r.hour == hour && r.minute == minute && r.second == second && r.nanosecond == nanosecond
  {
    DateTime(t.year, t.month, t.day, hour, minute, second, nanosecond, t.location)
  }

  /** Midnight at the start of the day of `t`. */
  function GetStartOfDay<L(==)>(t: DateTime<L>): (r: DateTime<L>)
    ensures SameDay(r, t)
    ensures Valid(t) ==> Valid(r)
    ensures NanoOfDay(r) == 0
  {
    SetTimeOnlyParts(t, 0, 0, 0, 0)
  }

  /** One nanosecond before the midnight that ends the day of `t`. */
  function GetEndOfDay<L(==)>(t: DateTime<L>): (r: DateTime<L>)
    ensures SameDay(r, t)
    ensures Valid(t) ==> Valid(r)
    ensures NanoOfDay(r) + 1 == NanosPerDay
  {
    SetTimeOnlyParts(t, 23, 59, 59, 999_999_999)
  }

  /** A nonzero multiple of `base` is at least `base` away from zero. */
  lemma MultipleAwayFromZero(d: int, base: int)
    requires base > 0
    ensures d >= 1 ==> d * base >= base
    ensures d <= -1 ==> d * base <= -base
  {
    if d >= 1 {
      assert d * base == base + (d - 1) * base;
    } else if d <= -1 {
      assert d * base == -base + (d + 1) * base;
    }
  }

  /** Division with remainder is unique: a quotient and an in-range remainder are determined by the value. */
  lemma MixedRadixUnique(q1: int, r1: int, q2: int, r2: int, base: int)
    requires base > 0
    requires 0 <= r1 < base && 0 <= r2 < base
    requires q1 * base + r1 == q2 * base + r2
    ensures q1 == q2 && r1 == r2
  {
    var d := q1 - q2;
    assert d * base == r2 - r1;
    MultipleAwayFromZero(d, base);
  }

  /** A valid time of day falls within the day. */
  lemma NanoOfDayRange<L>(t: DateTime<L>)
    requires ValidClock(t.hour, t.minute, t.second, t.nanosecond)
    ensures 0 <= NanoOfDay(t) < NanosPerDay
  {
    var minutes := t.hour * 60 + t.minute;
    assert 0 <= minutes < 24 * 60;
    var seconds := minutes * 60 + t.second;
    assert 0 <= seconds < SecondsPerDay;
    assert seconds * NanosPerSecond <= (SecondsPerDay - 1) * NanosPerSecond;
  }

  /** A valid time of day is determined by its offset from midnight. */
  lemma NanoOfDayInjective<L>(t: DateTime<L>, u: DateTime<L>)
    requires ValidClock(t.hour, t.minute, t.second, t.nanosecond)
    requires ValidClock(u.hour, u.minute, u.second, u.nanosecond)
    requires NanoOfDay(t) == NanoOfDay(u)
    ensures t.hour == u.hour && t.minute == u.minute && t.second == u.second && t.nanosecond == u.nanosecond
  {
    MixedRadixUnique((t.hour * 60 + t.minute) * 60 + t.second, t.nanosecond,
                     (u.hour * 60 + u.minute) * 60 + u.second, u.nanosecond, NanosPerSecond);
    MixedRadixUnique(t.hour * 60 + t.minute, t.second, u.hour * 60 + u.minute, u.second, 60);
    MixedRadixUnique(t.hour, t.minute, u.hour, u.minute, 60);
  }

  /**
   The start of the day is the earliest valid time on that date, and the only
   one at offset zero.
   */
  lemma StartOfDayIsEarliest<L>(t: DateTime<L>, u: DateTime<L>)
    requires Valid(u) && SameDay(u, t)
    ensures NanoOfDay(GetStartOfDay(t)) <= NanoOfDay(u)
    ensures u == GetStartOfDay(t) <==> NanoOfDay(u) == 0
  {
    NanoOfDayRange(u);
    if NanoOfDay(u) == 0 {
      NanoOfDayInjective(u, GetStartOfDay(t));
    }
  }

  /**
   The end of the day is the latest valid time on that date, and the only one
   a nanosecond short of the next midnight.
   */
  lemma EndOfDayIsLatest<L>(t: DateTime<L>, u: DateTime<L>)
    requires Valid(u) && SameDay(u, t)
    ensures NanoOfDay(u) <= NanoOfDay(GetEndOfDay(t))
    ensures u == GetEndOfDay(t) <==> NanoOfDay(u) + 1 == NanosPerDay
  {
    NanoOfDayRange(u);
    if NanoOfDay(u) + 1 == NanosPerDay {
      NanoOfDayInjective(u, GetEndOfDay(t));
    }
  }

  /**
   Each helper depends only on the date and location, so applying either
   after the other, or twice, gives the same as applying it once.
   */
  lemma DayBoundariesIdempotent<L>(t: DateTime<L>)
    ensures GetStartOfDay(GetStartOfDay(t)) == GetStartOfDay(t)
    ensures GetStartOfDay(GetEndOfDay(t)) == GetStartOfDay(t)
    ensures GetEndOfDay(GetEndOfDay(t)) == GetEndOfDay(t)
    ensures GetEndOfDay(GetStartOfDay(t)) == GetEndOfDay(t)
  {
  }
}
