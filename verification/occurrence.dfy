/** The next occurrence of a weekly reminder: weekday `d` (0 = Sunday) at a
    time of day, strictly after `now`. The service worker builds today's date
    at that time, takes `diff = d - now.getDay()`, adds 7 when it is negative,
    rolls a zero `diff` to 7 when today's slot is not after `now`, and then
    moves the candidate `diff` days ahead (sw.js, `schedule-weekday`). */
module Occurrence {
  import opened Clock

  /** `t` falls on weekday `d` at exactly `time` (seconds and milliseconds 0). */
  predicate OnSlot(t: int, d: int, time: ClockTime)
  {
    WeekdayOf(t) == d && TimeWithinDay(t) == time.Offset()
  }

  /** `t` is the earliest instant strictly after `now` on weekday `d` at `time`. */
  ghost predicate IsNextOccurrence(t: int, now: int, d: int, time: ClockTime)
  {
    now < t && OnSlot(t, d, time) && forall u :: now < u < t ==> !OnSlot(u, d, time)
  }

  /** `new Date(now.getFullYear(), now.getMonth(), now.getDate())` followed by
      `setHours(hh, mm, 0, 0)`: today's date at the requested time. For `now`
      in the years 0 through 99 the `Date` constructor would move midnight
      into 1900 through 1999; this model keeps `now`'s own day. */
  function TodayAt(now: int, time: ClockTime): int
  {
    DayStart(Day(now)) + time.Offset()
  }

  /** For a valid time, today's date at that time lies on `now`'s day at the
      time's offset from midnight. */
  lemma TodayAtSlot(now: int, time: ClockTime)
    requires time.Valid()
    ensures Day(TodayAt(now, time)) == Day(now)
    ensures TimeWithinDay(TodayAt(now, time)) == time.Offset()
  {
    DivModUnique(TodayAt(now, time), Day(now), time.Offset());
  }

  /** The number of days the candidate is moved ahead. */
  function WeekdayDiff(d: int, time: ClockTime, now: int): int
  {
    var raw := d - WeekdayOf(now);
    var wrapped := if raw < 0 then raw + 7 else raw;
    if wrapped == 0 && TodayAt(now, time) <= now then 7 else wrapped
  }

  /** `candidate.setDate(candidate.getDate() + diff)`: the scheduled instant. */
  function WeekdayCandidate(d: int, time: ClockTime, now: int): int
  {
    TodayAt(now, time) + WeekdayDiff(d, time, now) * MsPerDay
  }

  /** For any day index the candidate keeps the requested time of day and
      falls on weekday `d` modulo 7. */
  lemma CandidateSlot(d: int, time: ClockTime, now: int)
    requires time.Valid()
    ensures TimeWithinDay(WeekdayCandidate(d, time, now)) == time.Offset()
    ensures WeekdayOf(WeekdayCandidate(d, time, now)) == d % 7
  {
    var today, diff := TodayAt(now, time), WeekdayDiff(d, time, now);
    TodayAtSlot(now, time);
    ShiftByDays(today, diff);
    assert WeekdayOf(today) == WeekdayOf(now);
    assert diff % 7 == (d - WeekdayOf(now)) % 7;
  }

  /** For a weekday index the shift stays within a week, and it is a full week
      exactly when the reminder is for today and today's slot has passed. */
  lemma DiffRange(d: int, time: ClockTime, now: int)
    requires 0 <= d < 7
    ensures 0 <= WeekdayDiff(d, time, now) <= 7
    ensures WeekdayDiff(d, time, now) == 7 <==> d == WeekdayOf(now) && TodayAt(now, time) <= now
    ensures WeekdayDiff(d, time, now) < 7 ==> WeekdayDiff(d, time, now) == (d - WeekdayOf(now)) % 7
  {
  }

  /** The candidate is strictly after `now`: a same-day slot that is not later
      than `now` rolls a week ahead instead of firing today. */
  lemma CandidateAfterNow(d: int, time: ClockTime, now: int)
    requires 0 <= d < 7 && time.Valid()
    ensures now < WeekdayCandidate(d, time, now)
  {
    var today, diff := TodayAt(now, time), WeekdayDiff(d, time, now);
    TodayAtSlot(now, time);
    assert now < DayStart(Day(now)) + MsPerDay;
    if diff == 0 {
      assert today > now;
    }
  }

  /** No instant strictly between `now` and the candidate is on the slot. */
  lemma CandidateEarliest(d: int, time: ClockTime, now: int, u: int)
    requires 0 <= d < 7 && time.Valid()
    requires now < u < WeekdayCandidate(d, time, now)
    ensures !OnSlot(u, d, time)
  {
    var today := TodayAt(now, time);
    TodayAtSlot(now, time);
    ShiftByDays(today, Day(u) - Day(now));
  }

  /** The candidate is the next occurrence of weekday `d` at `time` after `now`. */
  lemma CandidateIsNext(d: int, time: ClockTime, now: int)
    requires 0 <= d < 7 && time.Valid()
    ensures IsNextOccurrence(WeekdayCandidate(d, time, now), now, d, time)
  {
    CandidateAfterNow(d, time, now);
    CandidateSlot(d, time, now);
    forall u | now < u < WeekdayCandidate(d, time, now)
      ensures !OnSlot(u, d, time)
    {
      CandidateEarliest(d, time, now, u);
    }
  }

  /** There is only one next occurrence, so the candidate is determined by
      `d`, `time` and `now` alone. */
  lemma NextOccurrenceUnique(t1: int, t2: int, now: int, d: int, time: ClockTime)
    requires IsNextOccurrence(t1, now, d, time) && IsNextOccurrence(t2, now, d, time)
    ensures t1 == t2
  {
    assert !(t1 < t2) && !(t2 < t1);
  }
}
