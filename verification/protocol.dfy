/** What the message handler promises to the pages that talk to it: one
    scheduling attempt per occurrence with the right tag and time, a gap report
    carrying the reminder's id for each failed attempt, restore entries
    re-posted by kind, and cancellation by exact tag. */
module Protocol {
  import opened Js
  import opened Clock
  import opened Calendar
  import opened Parse
  import opened Occurrence
  import opened Trigger
  import opened Handler

  /** The registration requests among the effects, in order. */
  function Attempts(es: seq<Effect>): seq<Request>
  {
    if es == [] then []
    else (if es[0].Attempt? then [es[0].request] else []) + Attempts(es[1..])
  }

  /** The ids carried by the capability-gap reports among the effects. */
  function Reports(es: seq<Effect>): seq<string>
  {
    if es == [] then []
    else (if es[0].Report? then [es[0].id] else []) + Reports(es[1..])
  }

  lemma {:induction false} AttemptsAppend(a: seq<Effect>, b: seq<Effect>)
    ensures Attempts(a + b) == Attempts(a) + Attempts(b)
    ensures Reports(a + b) == Reports(a) + Reports(b)
    decreases |a|
  {
    if a != [] {
      assert (a + b)[0] == a[0];
      assert (a + b)[1..] == a[1..] + b;
      AttemptsAppend(a[1..], b);
    } else {
      assert a + b == b;
    }
  }

  /** One attempt and the report that follows it when it fails. */
  lemma AttemptBlock(req: Request, ok: bool, id: string)
    ensures Attempts([Attempt(req)] + (if ok then [] else [Report(id)])) == [req]
    ensures Reports([Attempt(req)] + (if ok then [] else [Report(id)])) == (if ok then [] else [id])
  {
    var block := [Attempt(req)] + (if ok then [] else [Report(id)]);
    var tail := block[1..];
    assert tail == (if ok then [] else [Report(id)]);
    if !ok {
      assert tail[1..] == [];
      assert Attempts(tail) == [] + Attempts(tail[1..]);
      assert Reports(tail) == [id] + Reports(tail[1..]);
    }
    assert Attempts(block) == [req] + Attempts(tail);
    assert Reports(block) == [] + Reports(tail);
  }

  /** Whether the occurrence of a weekly reminder on day `d` was registered. */
  function DayScheduled(sch: Schedule, now: int, caps: Capabilities, d: int): bool
    requires ParseClock(sch.time).Some?
  {
    ScheduleUsingTrigger(caps, DayTag(sch.id, d), Title(sch.text),
                         WeekdayCandidate(d, ParseClock(sch.time).value, now), sch.text)
  }

  /** How many of the days' occurrences were not registered. */
  function FailedDays(sch: Schedule, now: int, caps: Capabilities, days: seq<int>): nat
    requires days != [] ==> ParseClock(sch.time).Some?
  {
    if days == [] then 0
    else FailedDays(sch, now, caps, days[..|days| - 1])
         + (if DayScheduled(sch, now, caps, days[|days| - 1]) then 0 else 1)
  }

  /** The request registered for day `d` of a weekly reminder. */
  function DayRequest(sch: Schedule, now: int, d: int): Request
    requires ParseClock(sch.time).Some?
  {
    TriggerRequest(DayTag(sch.id, d), Title(sch.text), WeekdayCandidate(d, ParseClock(sch.time).value, now), sch.text)
  }

  /** `reqs` are the requests of days `days`, one each, in order. */
  predicate RequestsFor(reqs: seq<Request>, sch: Schedule, now: int, days: seq<int>)
  {
    |reqs| == |days|
    && forall i :: 0 <= i < |days| ==> ParseClock(sch.time).Some? && reqs[i] == DayRequest(sch, now, days[i])
  }

  lemma RequestsForSnoc(reqs: seq<Request>, sch: Schedule, now: int, days: seq<int>, d: int)
    requires ParseClock(sch.time).Some?
    requires RequestsFor(reqs, sch, now, days)
    ensures RequestsFor(reqs + [DayRequest(sch, now, d)], sch, now, days + [d])
  {
  }

  /** A weekly reminder makes exactly one attempt per entry of `days`, in
      order, each under its per-day tag. */
  lemma {:induction false} WeekdayAttemptsPerDay(sch: Schedule, now: int, caps: Capabilities, days: seq<int>)
    requires days != [] ==> ParseClock(sch.time).Some?
    ensures RequestsFor(Attempts(WeekdayEffects(sch, now, caps, days)), sch, now, days)
    decreases |days|
  {
    if days != [] {
      var init, d := days[..|days| - 1], days[|days| - 1];
      WeekdayAttemptsPerDay(sch, now, caps, init);
      LastDayAttempt(sch, now, caps, days);
      RequestsForSnoc(Attempts(WeekdayEffects(sch, now, caps, init)), sch, now, init, d);
      assert init + [d] == days;
    }
  }

  /** The last day of `days` adds exactly its own request to the attempts. */
  lemma LastDayAttempt(sch: Schedule, now: int, caps: Capabilities, days: seq<int>)
    requires days != [] && ParseClock(sch.time).Some?
    ensures Attempts(WeekdayEffects(sch, now, caps, days))
            == Attempts(WeekdayEffects(sch, now, caps, days[..|days| - 1])) + [DayRequest(sch, now, days[|days| - 1])]
  {
    var init, d := days[..|days| - 1], days[|days| - 1];
    var prefix := WeekdayEffects(sch, now, caps, init);
    AttemptsAppend(prefix, DayEffects(sch, now, caps, d));
    AttemptBlock(DayRequest(sch, now, d), DayScheduled(sch, now, caps, d), sch.id);
  }

  /** Every report of a weekly reminder carries the reminder's own id, and
      there is one report per failed attempt. */
  lemma {:induction false} WeekdayReportsPerFailure(sch: Schedule, now: int, caps: Capabilities, days: seq<int>)
    requires days != [] ==> ParseClock(sch.time).Some?
    ensures forall i :: 0 <= i < |Reports(WeekdayEffects(sch, now, caps, days))| ==>
              Reports(WeekdayEffects(sch, now, caps, days))[i] == sch.id
    ensures |Reports(WeekdayEffects(sch, now, caps, days))| == FailedDays(sch, now, caps, days)
    decreases |days|
  {
    if days != [] {
      var init, d := days[..|days| - 1], days[|days| - 1];
      WeekdayReportsPerFailure(sch, now, caps, init);
      var prefix := WeekdayEffects(sch, now, caps, init);
      var block := DayEffects(sch, now, caps, d);
      AttemptsAppend(prefix, block);
      AttemptBlock(DayRequest(sch, now, d), DayScheduled(sch, now, caps, d), sch.id);
    }
  }

  /** The `schedule-weekday` message: one attempt per entry of `days`, tagged
      `id + '_' + d` and titled from the text; for a weekday index and a valid
      time its timestamp is the next occurrence of that weekday and time after
      `now`; every gap report names the reminder's id, never a per-day tag. */
  lemma WeekdaySchedule(m: Message, now: int, env: Environment)
    requires m.kind == "schedule-weekday" && WellFormed(Some(m))
    ensures var es := Dispatch(Some(m), now, env);
            var days := m.schedule.days;
            |Attempts(es)| == |days|
            && (forall i :: 0 <= i < |days| ==>
                  Attempts(es)[i].tag == DayTag(m.schedule.id, days[i])
                  && Attempts(es)[i].title == Title(m.schedule.text)
                  && (0 <= days[i] < 7 && ParseClock(m.schedule.time).value.Valid() ==>
                        IsNextOccurrence(Attempts(es)[i].timestamp, now, days[i], ParseClock(m.schedule.time).value)))
            && (forall i :: 0 <= i < |Reports(es)| ==> Reports(es)[i] == m.schedule.id)
            && |Reports(es)| == FailedDays(m.schedule, now, env.caps, days)
  {
    var sch := m.schedule;
    WeekdayAttemptsPerDay(sch, now, env.caps, sch.days);
    WeekdayReportsPerFailure(sch, now, env.caps, sch.days);
    forall i | 0 <= i < |sch.days| && 0 <= sch.days[i] < 7 && ParseClock(sch.time).value.Valid()
      ensures IsNextOccurrence(DayRequest(sch, now, sch.days[i]).timestamp, now, sch.days[i], ParseClock(sch.time).value)
    {
      CandidateIsNext(sch.days[i], ParseClock(sch.time).value, now);
    }
  }

  /** Distinct days give the attempts of a weekly reminder distinct tags. */
  lemma WeekdayTagsDistinct(m: Message, now: int, env: Environment, i: int, j: int)
    requires m.kind == "schedule-weekday" && WellFormed(Some(m))
    requires 0 <= i < |m.schedule.days| && 0 <= j < |m.schedule.days|
    requires m.schedule.days[i] != m.schedule.days[j]
    ensures |Attempts(Dispatch(Some(m), now, env))| == |m.schedule.days|
    ensures Attempts(Dispatch(Some(m), now, env))[i].tag != Attempts(Dispatch(Some(m), now, env))[j].tag
  {
    WeekdaySchedule(m, now, env);
    DayTagInjective(m.schedule.id, m.schedule.days[i], m.schedule.days[j]);
  }

  /** The `schedule-date` message: one attempt under the reminder's id at the
      time value of the written date and time, and a report exactly when the
      attempt fails. For an existing date and valid time that instant lies on
      the written day (with the full year) at the written time, seconds and
      milliseconds zero. */
  lemma DateSchedule(m: Message, now: int, env: Environment)
    requires m.kind == "schedule-date" && WellFormed(Some(m))
    ensures var es := Dispatch(Some(m), now, env);
            var sch := m.schedule;
            var date, time := ParseDate(sch.date).value, ParseClock(sch.time).value;
            var ok := ScheduleUsingTrigger(env.caps, sch.id, Title(sch.text), DateValue(date, time), sch.text);
            Attempts(es) == [TriggerRequest(sch.id, Title(sch.text), DateValue(date, time), sch.text)]
            && Reports(es) == (if ok then [] else [sch.id])
            && (time.Valid() ==>
                  Day(Attempts(es)[0].timestamp) == MakeDay(MakeFullYear(date.year), date.month - 1, date.day)
                  && TimeWithinDay(Attempts(es)[0].timestamp) == time.Offset())
  {
    var sch := m.schedule;
    var date, time := ParseDate(sch.date).value, ParseClock(sch.time).value;
    AttemptBlock(TriggerRequest(sch.id, Title(sch.text), DateValue(date, time), sch.text),
                 ScheduleUsingTrigger(env.caps, sch.id, Title(sch.text), DateValue(date, time), sch.text), sch.id);
    if time.Valid() {
      DateValueFields(date, time);
    }
  }

  /** Without timestamp triggers every scheduling attempt is followed by its
      own gap report. */
  lemma NoTriggerReportsEveryAttempt(m: Message, now: int, env: Environment)
    requires m.kind == "schedule-date" || m.kind == "schedule-weekday"
    requires WellFormed(Some(m))
    requires !env.caps.showNotificationIsFunction || !env.caps.timestampTriggerDefined
    ensures |Reports(Dispatch(Some(m), now, env))| == |Attempts(Dispatch(Some(m), now, env))|
  {
    if m.kind == "schedule-date" {
      DateSchedule(m, now, env);
    } else {
      WeekdaySchedule(m, now, env);
      NoTriggerFailsAll(m.schedule, now, env.caps, m.schedule.days);
    }
  }

  lemma {:induction false} NoTriggerFailsAll(sch: Schedule, now: int, caps: Capabilities, days: seq<int>)
    requires days != [] ==> ParseClock(sch.time).Some?
    requires !caps.showNotificationIsFunction || !caps.timestampTriggerDefined
    ensures FailedDays(sch, now, caps, days) == |days|
    decreases |days|
  {
    if days != [] {
      NoTriggerFailsAll(sch, now, caps, days[..|days| - 1]);
    }
  }

  /** Messages that are falsy or of any type but the four handled ones cause
      nothing; in particular the `restore-date` and `restore-weekday` messages
      the worker posts to itself. */
  lemma IgnoredMessages(msg: Option<Message>, now: int, env: Environment)
    requires msg.Some? ==> msg.value.kind !in {"schedule-date", "schedule-weekday", "restore", "cancel"}
    ensures WellFormed(msg) && Dispatch(msg, now, env) == []
  {
  }

  /** `restore` re-posts every entry, in order and unchanged, as `restore-date`
      exactly when its type is `'date'` and as `restore-weekday` otherwise;
      without an active worker nothing is posted. */
  lemma {:induction false} RestorePosts(list: seq<Schedule>, active: bool)
    ensures active ==> |RestoreEffects(list, active)| == |list|
    ensures active ==> forall i :: 0 <= i < |list| ==>
              RestoreEffects(list, active)[i] == Post(RestoreKind(list[i]), list[i])
              && (RestoreKind(list[i]) == "restore-date" <==> list[i].kind == "date")
    ensures !active ==> RestoreEffects(list, active) == []
    decreases |list|
  {
    if list != [] && active {
      var init := list[..|list| - 1];
      RestorePosts(init, active);
      forall i | 0 <= i < |init|
        ensures RestoreEffects(list, active)[i] == Post(RestoreKind(list[i]), list[i])
      {
        assert list[i] == init[i];
      }
    }
  }

  /** What a `restore` posts is a message this handler ignores: the re-posted
      schedules are not scheduled again by this handler. */
  lemma RestoredMessagesIgnored(list: seq<Schedule>, active: bool, now: int, env: Environment, i: int)
    requires 0 <= i < |RestoreEffects(list, active)|
    ensures RestoreEffects(list, active)[i].Post?
    ensures var e := RestoreEffects(list, active)[i];
            var posted := Some(Message(e.kind, e.schedule, None, None));
            WellFormed(posted) && Dispatch(posted, now, env) == []
  {
    RestorePosts(list, active);
  }

  /** The notifications still held after the effects ran. */
  function AfterClosing(ns: seq<Notification>, es: seq<Effect>): seq<Notification>
  {
    if ns == [] then []
    else (if Close(ns[0]) in es then [] else [ns[0]]) + AfterClosing(ns[1..], es)
  }

  lemma {:induction false} ClosesContent(nots: seq<Notification>)
    ensures forall e :: e in Closes(nots) ==> e.Close? && e.notification in nots
    ensures forall n :: n in nots ==> Close(n) in Closes(nots)
    decreases |nots|
  {
    if nots != [] {
      var init := nots[..|nots| - 1];
      ClosesContent(init);
      assert forall n :: n in nots ==> n in init || n == nots[|nots| - 1];
    }
  }

  lemma {:induction false} MatchingContent(ns: seq<Notification>, tag: string)
    ensures forall n :: n in Matching(ns, tag) <==> n in ns && (tag == "" || n.tag == tag)
    decreases |ns|
  {
    if ns != [] {
      var init := ns[..|ns| - 1];
      MatchingContent(init, tag);
      assert forall n :: n in ns <==> n in init || n == ns[|ns| - 1];
    }
  }

  /** `cancel` closes exactly the notifications whose tag equals the message's
      id (all of them when the id is `undefined` or empty), and does nothing else. */
  lemma CancelClosesExactly(ns: seq<Notification>, id: Option<string>)
    ensures forall e :: e in CancelEffects(ns, id) ==> e.Close?
    ensures forall n :: Close(n) in CancelEffects(ns, id)
                        <==> n in ns && (FilterTag(id) == "" || n.tag == FilterTag(id))
  {
    MatchingContent(ns, FilterTag(id));
    ClosesContent(Matching(ns, FilterTag(id)));
  }

  /** `cancel` with a reminder's id leaves the per-day notifications of a
      weekly reminder with that id alone: they must be cancelled one by one. */
  lemma CancelSparesDayTags(ns: seq<Notification>, id: string, d: int, n: Notification)
    requires id != "" && n in ns && n.tag == DayTag(id, d)
    ensures Close(n) !in CancelEffects(ns, Some(id))
  {
    CancelClosesExactly(ns, Some(id));
    DayTagInjective(id, d, d);
  }

  lemma {:induction false} AfterClosingContent(ns: seq<Notification>, es: seq<Effect>)
    ensures forall n :: n in AfterClosing(ns, es) <==> n in ns && Close(n) !in es
    decreases |ns|
  {
    if ns != [] {
      AfterClosingContent(ns[1..], es);
      assert forall n :: n in ns <==> n == ns[0] || n in ns[1..];
    }
  }

  lemma {:induction false} NothingMatches(ns: seq<Notification>, tag: string)
    requires forall i :: 0 <= i < |ns| ==> !Selected(ns[i], tag)
    ensures Matching(ns, tag) == []
    decreases |ns|
  {
    if ns != [] {
      NothingMatches(ns[..|ns| - 1], tag);
    }
  }

  /** Cancelling twice with nothing scheduled in between closes nothing the
      second time. */
  lemma CancelIdempotent(ns: seq<Notification>, id: Option<string>)
    ensures CancelEffects(AfterClosing(ns, CancelEffects(ns, id)), id) == []
  {
    var first := CancelEffects(ns, id);
    var rest := AfterClosing(ns, first);
    CancelClosesExactly(ns, id);
    AfterClosingContent(ns, first);
    forall i | 0 <= i < |rest|
      ensures !Selected(rest[i], FilterTag(id))
    {
      assert rest[i] in rest;
    }
    NothingMatches(rest, FilterTag(id));
  }

  // ---------------------------------------------------------------------------
  // Worked examples

  /** On Wednesday 2024-01-10 at 09:00, a Wednesday 08:00 reminder rolls to
      the next Wednesday, and a Friday 08:00 reminder falls two days ahead. */
  lemma WeekdayExamples()
    ensures var now := DateValue(CivilDate(2024, 1, 10), ClockTime(9, 0));
            WeekdayOf(now) == 3
            && WeekdayCandidate(3, ClockTime(8, 0), now) == DateValue(CivilDate(2024, 1, 17), ClockTime(8, 0))
            && WeekdayCandidate(5, ClockTime(8, 0), now) == DateValue(CivilDate(2024, 1, 12), ClockTime(8, 0))
  {
    var now := DateValue(CivilDate(2024, 1, 10), ClockTime(9, 0));
    assert DayFromYear(2024) == 19723;
    assert Day(now) == 19732;
  }

  /** A weekly reminder with `days = [1, 3]` attempts the tags `id_1` and
      `id_3`, in that order. */
  lemma TwoDayTags(m: Message, now: int, env: Environment)
    requires m.kind == "schedule-weekday" && m.schedule.days == [1, 3]
    requires ParseClock(m.schedule.time).Some?
    ensures WellFormed(Some(m))
    ensures var es := Dispatch(Some(m), now, env);
            |Attempts(es)| == 2
            && Attempts(es)[0].tag == m.schedule.id + "_1"
            && Attempts(es)[1].tag == m.schedule.id + "_3"
  {
    WeekdaySchedule(m, now, env);
    assert NumberString(1) == "1" && NumberString(3) == "3";
  }
}
