/** The proleptic Gregorian calendar behind `new Date(year, monthIndex, date,
    hours, minutes, 0, 0)`, following ECMA-262 section 21.4.1 (DayFromYear,
    InLeapYear, MakeDay, MakeTime, MakeDate) and the two-digit-year rule of the
    `Date` constructor (section 21.4.2.1, MakeFullYear). Day numbers count from
    1970-01-01 = day 0. */
module Calendar {
  import opened Clock

  predicate IsLeapYear(y: int)
  {
    (y % 4 == 0 && y % 100 != 0) || y % 400 == 0
  }

  function DaysInYear(y: int): (n: int)
    ensures n == 365 || n == 366
  {
    if IsLeapYear(y) then 366 else 365
  }

  /** Day number of January 1st of year `y` (ECMA-262 DayFromYear). */
  function DayFromYear(y: int): int
  {
    365 * (y - 1970) + (y - 1969) / 4 - (y - 1901) / 100 + (y - 1601) / 400
  }

  /** Number of days of month `mn` (0 = January) in year `y`. */
  function DaysInMonth(y: int, mn: int): (n: int)
    requires 0 <= mn < 12
    ensures 28 <= n <= 31
  {
    if mn == 1 then (if IsLeapYear(y) then 29 else 28)
    else if mn == 3 || mn == 5 || mn == 8 || mn == 10 then 30
    else 31
  }

  /** Days of year `y` before the first of month `mn` (ECMA-262 MonthFromTime
      table). */
  function DaysBeforeMonth(y: int, mn: int): int
    requires 0 <= mn < 12
  {
    var common := if mn == 0 then 0 else if mn == 1 then 31 else if mn == 2 then 59
                  else if mn == 3 then 90 else if mn == 4 then 120 else if mn == 5 then 151
                  else if mn == 6 then 181 else if mn == 7 then 212 else if mn == 8 then 243
                  else if mn == 9 then 273 else if mn == 10 then 304 else 334;
    common + (if mn >= 2 && IsLeapYear(y) then 1 else 0)
  }

  /** ECMA-262 MakeDay: month indices outside 0..11 carry into the year, and
      the date counts days from the first of the month, so any integer is
      accepted. */
  function MakeDay(year: int, month: int, date: int): int
  {
    var ym := year + month / 12;
    var mn := month % 12;
    DayFromYear(ym) + DaysBeforeMonth(ym, mn) + date - 1
  }

  /** The `Date` constructor reads years 0 through 99 as 1900 through 1999. */
  function MakeFullYear(y: int): (full: int)
    ensures 0 <= y <= 99 ==> full == 1900 + y
    ensures !(0 <= y <= 99) ==> full == y
  {
    if 0 <= y <= 99 then 1900 + y else y
  }

  /** The local time value of a full year, month index, date and time of day
      (ECMA-262 MakeDate(MakeDay(...), MakeTime(hour, minute, 0, 0))). */
  function LocalInstant(year: int, month: int, date: int, time: ClockTime): int
  {
    MakeDay(year, month, date) * MsPerDay + time.Offset()
  }

  /** A calendar date as written in `"YYYY-MM-DD"`: `month` counts from 1. */
  datatype CivilDate = CivilDate(year: int, month: int, day: int)
  {
    /** An existing date of the proleptic Gregorian calendar. */
    predicate Valid()
    {
      1 <= month <= 12 && 1 <= day <= DaysInMonth(MakeFullYear(year), month - 1)
    }
  }

  /** `new Date(parts[0], parts[1] - 1, parts[2], hh, mm, 0, 0).getTime()`. */
  function DateValue(date: CivilDate, time: ClockTime): int
  {
    LocalInstant(MakeFullYear(date.year), date.month - 1, date.day, time)
  }

  // ---------------------------------------------------------------------------
  // Calendar arithmetic

  /** Consecutive New Year's days are a year's length apart. */
  lemma DayFromYearStep(y: int)
    ensures DayFromYear(y + 1) == DayFromYear(y) + DaysInYear(y)
  {
    Quarter(y);
    Century(y);
    FourCenturies(y);
  }

  // The leap-day counts of DayFromYear grow by one exactly at multiples of
  // 4, 100 and 400.

  lemma Quarter(y: int)
    ensures (y - 1968) / 4 == (y - 1969) / 4 + (if y % 4 == 0 then 1 else 0)
  {
  }

  lemma Century(y: int)
    ensures (y - 1900) / 100 == (y - 1901) / 100 + (if y % 100 == 0 then 1 else 0)
  {
  }

  lemma FourCenturies(y: int)
    ensures (y - 1600) / 400 == (y - 1601) / 400 + (if y % 400 == 0 then 1 else 0)
  {
  }

  /** New Year's days strictly increase with the year, at least a year apart. */
  lemma {:induction false} DayFromYearMonotone(y1: int, y2: int)
    requires y1 < y2
    ensures DayFromYear(y1) + DaysInYear(y1) <= DayFromYear(y2)
    decreases y2 - y1
  {
    DayFromYearStep(y1);
    if y1 + 1 < y2 {
      DayFromYearMonotone(y1 + 1, y2);
    }
  }

  /** The twelve months fill the year exactly. */
  lemma DaysBeforeMonthBounds(y: int, mn: int)
    requires 0 <= mn < 12
    ensures 0 <= DaysBeforeMonth(y, mn)
    ensures DaysBeforeMonth(y, mn) + DaysInMonth(y, mn) <= DaysInYear(y)
    ensures mn == 11 ==> DaysBeforeMonth(y, mn) + DaysInMonth(y, mn) == DaysInYear(y)
  {
  }

  /** Each month starts where the previous one ends. */
  lemma DaysBeforeNextMonth(y: int, mn: int)
    requires 0 <= mn < 11
    ensures DaysBeforeMonth(y, mn + 1) == DaysBeforeMonth(y, mn) + DaysInMonth(y, mn)
  {
  }

  /** Earlier months end no later than later months begin. */
  lemma {:induction false} DaysBeforeMonthMonotone(y: int, m1: int, m2: int)
    requires 0 <= m1 < m2 < 12
    ensures DaysBeforeMonth(y, m1) + DaysInMonth(y, m1) <= DaysBeforeMonth(y, m2)
    decreases m2 - m1
  {
    DaysBeforeNextMonth(y, m1);
    if m1 + 1 < m2 {
      DaysBeforeMonthMonotone(y, m1 + 1, m2);
      DaysBeforeMonthBounds(y, m1 + 1);
    }
  }

  /** For a month index within the year, MakeDay needs no carry. */
  lemma MakeDayInYear(y: int, mn: int, date: int)
    requires 0 <= mn < 12
    ensures MakeDay(y, mn, date) == DayFromYear(y) + DaysBeforeMonth(y, mn) + date - 1
  {
    assert mn / 12 == 0 && mn % 12 == mn;
  }

  /** The first of the next month (with December carrying into January of the
      next year, as MakeDay normalises) lies one month length later. */
  lemma NextMonth(year: int, month: int)
    ensures MakeDay(year, month + 1, 1)
         == MakeDay(year, month, 1) + DaysInMonth(year + month / 12, month % 12)
  {
    var ym, mn := year + month / 12, month % 12;
    if mn == 11 {
      assert (month + 1) / 12 == month / 12 + 1 && (month + 1) % 12 == 0;
      DayFromYearStep(ym);
      DaysBeforeMonthBounds(ym, 11);
    } else {
      assert (month + 1) / 12 == month / 12 && (month + 1) % 12 == mn + 1;
      DaysBeforeNextMonth(ym, mn);
    }
  }

  /** A date of year `y` lies between its New Year's day and the next. */
  lemma WithinYear(y: int, mn: int, date: int)
    requires 0 <= mn < 12 && 1 <= date <= DaysInMonth(y, mn)
    ensures DayFromYear(y) <= MakeDay(y, mn, date) < DayFromYear(y) + DaysInYear(y)
  {
    MakeDayInYear(y, mn, date);
    DaysBeforeMonthBounds(y, mn);
  }

  /** Existing dates with the same day number are in the same year. */
  lemma SameYear(y1: int, m1: int, d1: int, y2: int, m2: int, d2: int)
    requires 0 <= m1 < 12 && 1 <= d1 <= DaysInMonth(y1, m1)
    requires 0 <= m2 < 12 && 1 <= d2 <= DaysInMonth(y2, m2)
    requires MakeDay(y1, m1, d1) == MakeDay(y2, m2, d2)
    ensures y1 == y2
  {
    WithinYear(y1, m1, d1);
    WithinYear(y2, m2, d2);
    if y1 < y2 {
      DayFromYearMonotone(y1, y2);
    } else if y2 < y1 {
      DayFromYearMonotone(y2, y1);
    }
  }

  /** Distinct existing dates have distinct day numbers. */
  lemma MakeDayInjective(y1: int, m1: int, d1: int, y2: int, m2: int, d2: int)
    requires 0 <= m1 < 12 && 1 <= d1 <= DaysInMonth(y1, m1)
    requires 0 <= m2 < 12 && 1 <= d2 <= DaysInMonth(y2, m2)
    requires MakeDay(y1, m1, d1) == MakeDay(y2, m2, d2)
    ensures y1 == y2 && m1 == m2 && d1 == d2
  {
    SameYear(y1, m1, d1, y2, m2, d2);
    MakeDayInYear(y1, m1, d1);
    MakeDayInYear(y1, m2, d2);
    if m1 < m2 {
      DaysBeforeMonthMonotone(y1, m1, m2);
    } else if m2 < m1 {
      DaysBeforeMonthMonotone(y1, m2, m1);
    }
  }

  /** The time value places the date in its day and the time within it. */
  lemma LocalInstantFields(year: int, month: int, date: int, time: ClockTime)
    requires time.Valid()
    ensures Day(LocalInstant(year, month, date, time)) == MakeDay(year, month, date)
    ensures TimeWithinDay(LocalInstant(year, month, date, time)) == time.Offset()
  {
    DivModUnique(LocalInstant(year, month, date, time), MakeDay(year, month, date), time.Offset());
  }

  /** A valid time of day is determined by its offset from midnight. */
  lemma OffsetInjective(a: ClockTime, b: ClockTime)
    requires a.Valid() && b.Valid() && a.Offset() == b.Offset()
    ensures a == b
  {
  }

  /** The date schedule's time value is the unique instant carrying that
      calendar date (with the full year) and that time of day. */
  lemma DateValueUnique(a: CivilDate, ta: ClockTime, b: CivilDate, tb: ClockTime)
    requires a.Valid() && ta.Valid() && b.Valid() && tb.Valid()
    requires DateValue(a, ta) == DateValue(b, tb)
    ensures MakeFullYear(a.year) == MakeFullYear(b.year)
    ensures a.month == b.month && a.day == b.day && ta == tb
  {
    var ya, yb := MakeFullYear(a.year), MakeFullYear(b.year);
    LocalInstantFields(ya, a.month - 1, a.day, ta);
    LocalInstantFields(yb, b.month - 1, b.day, tb);
    MakeDayInjective(ya, a.month - 1, a.day, yb, b.month - 1, b.day);
    OffsetInjective(ta, tb);
  }

  /** Reading a date back: the day number and time of day of the time value
      are those of the written date. */
  lemma DateValueFields(date: CivilDate, time: ClockTime)
    requires time.Valid()
    ensures Day(DateValue(date, time)) == MakeDay(MakeFullYear(date.year), date.month - 1, date.day)
    ensures TimeWithinDay(DateValue(date, time)) == time.Offset()
  {
    LocalInstantFields(MakeFullYear(date.year), date.month - 1, date.day, time);
  }

  /** Years written with at most two digits land in the twentieth century. */
  lemma TwoDigitYear(y: int, month: int, day: int, time: ClockTime)
    requires 0 <= y <= 99
    ensures DateValue(CivilDate(y, month, day), time) == DateValue(CivilDate(1900 + y, month, day), time)
  {
  }
}
