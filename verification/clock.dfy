/** Wall-clock time as the service worker sees it through JavaScript's `Date`.
    A time value is a whole number of milliseconds since 1970-01-01T00:00 on the
    local wall clock (time zones and daylight saving are not modelled, so local
    time and time value coincide). Day numbers, weekdays and the time within a
    day follow the definitions of ECMA-262, section 21.4.1 ("Time Values and
    Time Range"): Day(t) = floor(t / msPerDay), WeekDay(t) = (Day(t) + 4) modulo 7. */
module Clock {

  const MsPerMinute: int := 60000
  const MsPerHour: int := 3600000
  const MsPerDay: int := 86400000

  /** 1970-01-01 was a Thursday (weekday 4, with 0 = Sunday). */
  const EpochWeekday: int := 4

  /** The day number of a time value (floor division: Dafny's `/` by a positive
      constant rounds toward negative infinity, as ECMA-262 requires). */
  function Day(t: int): int
  {
    t / MsPerDay
  }

  /** Milliseconds elapsed since midnight of the day holding `t`. */
  function TimeWithinDay(t: int): (ms: int)
    ensures 0 <= ms < MsPerDay
    ensures t == Day(t) * MsPerDay + ms
  {
    t % MsPerDay
  }

  /** `Date.prototype.getDay`: 0 = Sunday, ..., 6 = Saturday. */
  function WeekdayOf(t: int): (wd: int)
    ensures 0 <= wd < 7
  {
    (Day(t) + EpochWeekday) % 7
  }

  /** Midnight starting day number `day`. */
  function DayStart(day: int): int
  {
    day * MsPerDay
  }

  /** A time of day as parsed from an `"HH:MM"` string. Fields are unbounded:
      `Date` normalises out-of-range hours and minutes by plain arithmetic. */
  datatype ClockTime = ClockTime(hour: int, minute: int)
  {
    predicate Valid()
    {
      0 <= hour < 24 && 0 <= minute < 60
    }

    /** ECMA-262 MakeTime(hour, minute, 0, 0): the offset from midnight. */
    function Offset(): (ms: int)
      ensures Valid() ==> 0 <= ms < MsPerDay && ms % MsPerMinute == 0
    {
      hour * MsPerHour + minute * MsPerMinute
    }
  }

  /** A day shift keeps the time within the day and moves the weekday along. */
  lemma ShiftByDays(t: int, k: int)
    ensures Day(t + k * MsPerDay) == Day(t) + k
    ensures TimeWithinDay(t + k * MsPerDay) == TimeWithinDay(t)
    ensures WeekdayOf(t + k * MsPerDay) == (WeekdayOf(t) + k) % 7
  {
    var ms := TimeWithinDay(t);
    assert t + k * MsPerDay == (Day(t) + k) * MsPerDay + ms;
    DivModUnique(t + k * MsPerDay, Day(t) + k, ms);
  }

  /** A time value written as day and offset within the day has exactly that
      day number and that offset. */
  lemma DivModUnique(t: int, day: int, ms: int)
    requires 0 <= ms < MsPerDay
    requires t == day * MsPerDay + ms
    ensures Day(t) == day && TimeWithinDay(t) == ms
  {
  }
}
