/** The service worker's `message` handler (sw.js): a stateless switch on the
    type of the message a page posts. Each message is mapped to the sequence of
    effects the handler causes on the platform, in the order they happen:
    a scheduling attempt (`scheduleUsingTrigger`), a capability-gap report to
    the pages (`{type: 'no-trigger', id}`), a message re-posted to the active
    worker, or the closing of a notification. Each attempt's outcome is taken
    as settled right after the attempt. */
module Handler {
  import opened Js
  import opened Clock
  import opened Calendar
  import opened Parse
  import opened Occurrence
  import opened Trigger

  /** A reminder as the page describes it. `kind` is the entry's `type`
      property, read when a list of reminders is restored. */
  datatype Schedule = Schedule(
    id: string,
    text: Option<string>,
    kind: string,
    date: string,
    time: string,
    days: seq<int>)

  /** `event.data` when it is truthy. `kind` is its `type` property; `schedules`
      and `id` may be absent (`undefined`). */
  datatype Message = Message(
    kind: string,
    schedule: Schedule,
    schedules: Option<seq<Schedule>>,
    id: Option<string>)

  /** A notification that `getNotifications` can return. `serial` tells apart
      notifications that share a tag and title. */
  datatype Notification = Notification(tag: string, title: string, serial: nat)

  /** What the handler sees of the platform besides trigger support: whether
      `registration.active` is set, and the notifications `getNotifications`
      chooses from. */
  datatype Environment = Environment(
    caps: Capabilities,
    hasActiveWorker: bool,
    notifications: seq<Notification>)

  datatype Effect =
    | Attempt(request: Request)
    | Report(id: string)
    | Post(kind: string, schedule: Schedule)
    | Close(notification: Notification)

  // ---------------------------------------------------------------------------
  // Display payload

  /** `sch.text || 'Reminder'`: a notification title is never empty. */
  function Title(text: Option<string>): (title: string)
    ensures title != ""
    ensures Truthy(text) ==> title == text.value
    ensures title == "Reminder" <==> !Truthy(text) || text.value == "Reminder"
  {
    OrElse(text, "Reminder")
  }

  /** The body a scheduling attempt registers: `data || ''` with `data` the
      reminder's text. It is empty exactly when the text is falsy, and it
      equals the title whenever it is not empty. */
  lemma BodyAndTitle(id: string, text: Option<string>, timestamp: int)
    ensures var req := TriggerRequest(id, Title(text), timestamp, text);
            (req.body == "" <==> !Truthy(text))
            && (req.body != "" ==> req.body == req.title)
  {
  }

  // ---------------------------------------------------------------------------
  // Scheduling attempts

  /** One call of `scheduleUsingTrigger`, followed by a report carrying
      `reportId` when it resolves to false. */
  function AttemptEffects(caps: Capabilities, tag: string, text: Option<string>, timestamp: int,
                          reportId: string): seq<Effect>
  {
    var req := TriggerRequest(tag, Title(text), timestamp, text);
    [Attempt(req)]
    + (if ScheduleUsingTrigger(caps, tag, Title(text), timestamp, text) then [] else [Report(reportId)])
  }

  /** The tag of the occurrence of a weekly reminder on day `d`: `id + '_' + d`. */
  function DayTag(id: string, d: int): string
  {
    id + "_" + NumberString(d)
  }

  /** Per-day tags of one reminder are distinct for distinct days, and differ
      from the reminder's own id. */
  lemma DayTagInjective(id: string, d1: int, d2: int)
    ensures DayTag(id, d1) != id
    ensures DayTag(id, d1) == DayTag(id, d2) ==> d1 == d2
  {
    if DayTag(id, d1) == DayTag(id, d2) {
      var n := |id| + 1;
      assert NumberString(d1) == DayTag(id, d1)[n..] == DayTag(id, d2)[n..] == NumberString(d2);
      NumberStringInjective(d1, d2);
    }
  }

  /** The `schedule-date` branch: the timestamp of the written date and time,
      scheduled under the reminder's id. */
  function DateEffects(sch: Schedule, caps: Capabilities): seq<Effect>
    requires ParseClock(sch.time).Some? && ParseDate(sch.date).Some?
  {
    var ts := DateValue(ParseDate(sch.date).value, ParseClock(sch.time).value);
    AttemptEffects(caps, sch.id, sch.text, ts, sch.id)
  }

  /** The occurrence of a weekly reminder on day `d` (one `forEach` round). */
  function DayEffects(sch: Schedule, now: int, caps: Capabilities, d: int): seq<Effect>
    requires ParseClock(sch.time).Some?
  {
    var time := ParseClock(sch.time).value;
    AttemptEffects(caps, DayTag(sch.id, d), sch.text, WeekdayCandidate(d, time, now), sch.id)
  }

  /** The `schedule-weekday` branch over the days `days`, in order. */
  function WeekdayEffects(sch: Schedule, now: int, caps: Capabilities, days: seq<int>): seq<Effect>
    requires days != [] ==> ParseClock(sch.time).Some?
  {
    if days == [] then []
    else WeekdayEffects(sch, now, caps, days[..|days| - 1]) + DayEffects(sch, now, caps, days[|days| - 1])
  }

  // ---------------------------------------------------------------------------
  // Restore and cancel

  /** The message type a restored entry is re-posted as. */
  function RestoreKind(sch: Schedule): string
  {
    if sch.kind == "date" then "restore-date" else "restore-weekday"
  }

  /** The `restore` branch: every entry re-posted to the active worker, when
      there is one. */
  function RestoreEffects(list: seq<Schedule>, active: bool): seq<Effect>
  {
    if list == [] || !active then []
    else RestoreEffects(list[..|list| - 1], active) + [Post(RestoreKind(list[|list| - 1]), list[|list| - 1])]
  }

  /** The tag filter `getNotifications({tag: msg.id})` applies; an `undefined`
      id leaves the option at its default, the empty string. */
  function FilterTag(id: Option<string>): string
  {
    if id.Some? then id.value else ""
  }

  /** Whether `getNotifications({tag})` returns `n`: an empty tag selects
      every notification (Notifications API, `getNotifications`). */
  predicate Selected(n: Notification, tag: string)
  {
    tag == "" || n.tag == tag
  }

  /** `getNotifications({tag})`: the selected notifications, in order. */
  function Matching(ns: seq<Notification>, tag: string): seq<Notification>
  {
    if ns == [] then []
    else
      var last := ns[|ns| - 1];
      Matching(ns[..|ns| - 1], tag) + (if Selected(last, tag) then [last] else [])
  }

  /** `nots.forEach(n => n.close())`. */
  function Closes(nots: seq<Notification>): seq<Effect>
  {
    if nots == [] then [] else Closes(nots[..|nots| - 1]) + [Close(nots[|nots| - 1])]
  }

  /** The `cancel` branch. */
  function CancelEffects(ns: seq<Notification>, id: Option<string>): seq<Effect>
  {
    Closes(Matching(ns, FilterTag(id)))
  }

  // ---------------------------------------------------------------------------
  // Dispatch

  /** The date and time strings that a message's branch reads are well formed. */
  predicate WellFormed(msg: Option<Message>)
  {
    msg.Some? ==>
      var sch := msg.value.schedule;
      (msg.value.kind == "schedule-date" ==> ParseClock(sch.time).Some? && ParseDate(sch.date).Some?)
      && (msg.value.kind == "schedule-weekday" && sch.days != [] ==> ParseClock(sch.time).Some?)
  }

  /** The effects of one message: a falsy message (`None`) and any type other
      than the four handled ones cause nothing. */
  function Dispatch(msg: Option<Message>, now: int, env: Environment): seq<Effect>
    requires WellFormed(msg)
  {
    if msg.None? then []
    else
      var m := msg.value;
      if m.kind == "schedule-date" then DateEffects(m.schedule, env.caps)
      else if m.kind == "schedule-weekday" then WeekdayEffects(m.schedule, now, env.caps, m.schedule.days)
      else if m.kind == "restore" then RestoreEffects(if m.schedules.Some? then m.schedules.value else [], env.hasActiveWorker)
      else if m.kind == "cancel" then CancelEffects(env.notifications, m.id)
      else []
  }

  // ---------------------------------------------------------------------------
  // The handler, step by step

  /** The `schedule-weekday` branch as the worker runs it: for each day, build
      today's date at the requested time, compute `diff`, move the candidate
      and attempt to schedule it. */
  method ScheduleWeekday(sch: Schedule, now: int, caps: Capabilities) returns (effects: seq<Effect>)
    requires sch.days != [] ==> ParseClock(sch.time).Some?
    ensures effects == WeekdayEffects(sch, now, caps, sch.days)
  {
    effects := [];
    var i := 0;
    while i < |sch.days|
      invariant 0 <= i <= |sch.days|
      invariant effects == WeekdayEffects(sch, now, caps, sch.days[..i])
    {
      var d := sch.days[i];
      var candidate := DayStart(Day(now));
      var time := ParseClock(sch.time).value;
      candidate := candidate + time.Offset();
      var diff := d - WeekdayOf(now);
      if diff < 0 {
        diff := diff + 7;
      }
      if diff == 0 && candidate <= now {
        diff := 7;
      }
      candidate := candidate + diff * MsPerDay;
      var tag := DayTag(sch.id, d);
      var title := Title(sch.text);
      var ok := ScheduleUsingTrigger(caps, tag, title, candidate, sch.text);
      effects := effects + [Attempt(TriggerRequest(tag, title, candidate, sch.text))];
      if !ok {
        effects := effects + [Report(sch.id)];
      }
      assert sch.days[..i + 1][..i] == sch.days[..i];
      i := i + 1;
    }
    assert sch.days[..i] == sch.days;
  }

  /** The `restore` branch: re-post each entry to the active worker. */
  method Restore(list: seq<Schedule>, active: bool) returns (effects: seq<Effect>)
    ensures effects == RestoreEffects(list, active)
  {
    effects := [];
    var i := 0;
    while i < |list|
      invariant 0 <= i <= |list|
      invariant effects == RestoreEffects(list[..i], active)
    {
      var sch := list[i];
      if sch.kind == "date" {
        if active {
          effects := effects + [Post("restore-date", sch)];
        }
      } else {
        if active {
          effects := effects + [Post("restore-weekday", sch)];
        }
      }
      assert list[..i + 1][..i] == list[..i];
      i := i + 1;
    }
    assert list[..i] == list;
  }

  /** The `cancel` branch once `getNotifications` has answered: close each
      notification returned. */
  method CloseEach(nots: seq<Notification>) returns (effects: seq<Effect>)
    ensures effects == Closes(nots)
  {
    effects := [];
    var i := 0;
    while i < |nots|
      invariant 0 <= i <= |nots|
      invariant effects == Closes(nots[..i])
    {
      effects := effects + [Close(nots[i])];
      assert nots[..i + 1][..i] == nots[..i];
      i := i + 1;
    }
    assert nots[..i] == nots;
  }

  /** The message handler. */
  method HandleMessage(msg: Option<Message>, now: int, env: Environment) returns (effects: seq<Effect>)
    requires WellFormed(msg)
    ensures effects == Dispatch(msg, now, env)
  {
    if msg.None? {
      return [];
    }
    var m := msg.value;
    if m.kind == "schedule-date" {
      var sch := m.schedule;
      var time := ParseClock(sch.time).value;
      var date := ParseDate(sch.date).value;
      var ts := DateValue(date, time);
      var title := Title(sch.text);
      var ok := ScheduleUsingTrigger(env.caps, sch.id, title, ts, sch.text);
      effects := [Attempt(TriggerRequest(sch.id, title, ts, sch.text))];
      if !ok {
        effects := effects + [Report(sch.id)];
      }
    } else if m.kind == "schedule-weekday" {
      effects := ScheduleWeekday(m.schedule, now, env.caps);
    } else if m.kind == "restore" {
      var list := if m.schedules.Some? then m.schedules.value else [];
      effects := Restore(list, env.hasActiveWorker);
    } else if m.kind == "cancel" {
      var nots := Matching(env.notifications, FilterTag(m.id));
      effects := CloseEach(nots);
    } else {
      effects := [];
    }
  }
}
