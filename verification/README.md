# Reminder scheduling in the service worker, modelled in Dafny

The service worker `sw.js` receives messages from the reminder page and turns
them into platform actions. It schedules a one-time reminder at a date and time.
It schedules a weekly reminder once per chosen weekday, at the next occurrence
of that weekday and time. It restores saved reminders by re-posting them to the
active worker. It cancels notifications by tag. When the platform cannot
register a notification for a future timestamp (no `TimestampTrigger`, or the
registration fails), it tells the pages with a `{type: 'no-trigger', id}`
report, so that they can fall back to their own timers.

The model has these parts:

- `Clock` (clock.dfy): time values in milliseconds on the local wall clock.
  Day numbers, time within the day and weekdays are defined as in ECMA-262
  section 21.4.1, with 1970-01-01 a Thursday.
- `Calendar` (calendar.dfy): what `new Date(y, m - 1, d, hh, mm, 0, 0)`
  computes. It follows ECMA-262 DayFromYear, MakeDay (month overflow carries
  into the year), MakeTime and MakeDate. It also models the constructor's rule
  that years 0 to 99 mean 1900 to 1999.
- `Parse` (parse.dfy): `split` and `parseInt` on the `"HH:MM"` and
  `"YYYY-MM-DD"` strings, and `String(d)` for the per-day tag.
- `Occurrence` (occurrence.dfy): the next occurrence of a weekday and time
  after `now`.
- `Trigger` (trigger.dfy): `scheduleUsingTrigger`, with the platform given as
  an input. The input says whether `showNotification` is a function and
  whether `TimestampTrigger` is defined. An oracle says which registrations the
  platform refuses.
- `Handler` (handler.dfy): the message handler. `Dispatch` maps a message to
  the sequence of effects it causes: `Attempt`, `Report`, `Post` and `Close`.
  The methods `ScheduleWeekday`, `Restore`, `CloseEach` and `HandleMessage`
  run the handler's loops step by step, as the worker does, and are proved to
  produce exactly those effects.
- `Protocol` (protocol.dfy): what the handler promises across messages.

Two behaviours of the code are worth knowing:

- `cancel` closes only notifications whose tag equals the message's `id`.
  The per-day notifications of a weekly reminder (`id_0` … `id_6`) are not
  closed (`Protocol.CancelSparesDayTags`).
- When the message's `id` is `undefined`, `getNotifications` is called with
  an empty tag. The Notifications API then returns every notification, so every
  notification is closed (`Protocol.CancelClosesExactly`).

## Model

| member | source | states |
|---|---|---|
| `Trigger.ScheduleUsingTrigger` | sw.js:17-34 | returns true iff `showNotification` is a function, `TimestampTrigger` is defined and the registration completes; a thrown error or rejection yields false and never escapes |
| `Handler.Title` | sw.js:53 | the title is never empty; it is `text` when truthy, and it is `'Reminder'` exactly when the text is falsy or is itself `'Reminder'` |
| `Handler.BodyAndTitle` | sw.js:23 | the body is empty exactly when the text is falsy, and a nonempty body equals the title |
| `Parse.Split` | sw.js:48-49 | `split` yields at least one part and no part contains the separator |
| `Parse.JoinSplit` | sw.js:48-49 | joining the parts of a split with the separator gives the string back |
| `Parse.SplitJoin` | sw.js:48-49 | splitting a join of separator-free parts gives the parts back |
| `Parse.ParseClock` | sw.js:48 | a time string is read exactly when its first two `:`-separated parts are numerals, giving nonnegative hour and minute |
| `Parse.ParseDate` | sw.js:49-50 | a date string is read exactly when its first three `-`-separated parts are numerals |
| `Parse.ParseFormatClock` | sw.js:48 | an `"HH:MM"` string written from a valid time is read back as that time |
| `Parse.ParseFormatDate` | sw.js:49-50 | a `"YYYY-MM-DD"` string is read back as the year, month and day it was written from |
| `Calendar.TwoDigitYear` | sw.js:50 | a date with year `y` in 0..99 has the same time value as the same date in year `1900 + y` |
| `Calendar.DayFromYearStep` | sw.js:50 | consecutive New Year's days are 365 or 366 days apart, by the Gregorian leap rule |
| `Calendar.DayFromYearMonotone` | sw.js:50 | a later year starts at least a full year after an earlier one |
| `Calendar.NextMonth` | sw.js:50 | the first of the next month lies one month length later, and December carries into January of the next year |
| `Calendar.MakeDayInjective` | sw.js:50 | distinct existing dates have distinct day numbers |
| `Calendar.DateValueFields` | sw.js:50-51 | the timestamp lies on the written date's day, at the written time with zero seconds and milliseconds |
| `Calendar.DateValueUnique` | sw.js:50-51 | two existing dates and valid times with the same timestamp have the same full year, month, day and time |
| `Clock.ShiftByDays` | sw.js:74 | moving `k` days ahead keeps the time of day and advances the weekday by `k` modulo 7 |
| `Occurrence.TodayAtSlot` | sw.js:66-68 | today's date at a valid `hh:mm` lies on `now`'s day at that offset from midnight |
| `Occurrence.CandidateSlot` | sw.js:66-74 | for any day index and a valid time, the candidate is at `hh:mm:00.000` on weekday `d` modulo 7 |
| `Occurrence.DiffRange` | sw.js:69-73 | for `d` in 0..6, `diff` is in 0..7; it is 7 iff `d` is today's weekday and today's slot is not after `now`; otherwise it is `(d - today) mod 7` |
| `Occurrence.CandidateAfterNow` | sw.js:71-74 | the candidate is strictly after `now`; a same-day slot not after `now` rolls a week ahead |
| `Occurrence.CandidateEarliest` | sw.js:66-74 | no instant strictly between `now` and the candidate falls on weekday `d` at `hh:mm` |
| `Occurrence.CandidateIsNext` | sw.js:63-74 | the candidate is the earliest instant after `now` on weekday `d` at `hh:mm` |
| `Occurrence.NextOccurrenceUnique` | sw.js:63-74 | there is only one such earliest instant |
| `Parse.NumberString` | sw.js:75 | `String(d)` is a nonempty string |
| `Parse.NumberStringValue` | sw.js:75 | the numeral of a natural number is read back by `parseInt` as that number |
| `Parse.NumberStringInjective` | sw.js:75 | distinct integers have distinct numerals |
| `Handler.DayTagInjective` | sw.js:75 | per-day tags `id + '_' + d` differ from `id` and are distinct for distinct days |
| `Handler.ScheduleWeekday` | sw.js:64-78 | the `forEach` over `days`, mutating `candidate` and `diff` as the worker does, produces exactly the weekday branch's effects |
| `Handler.Restore` | sw.js:81-85 | the `forEach` over the restore list produces exactly the restore branch's posts |
| `Handler.CloseEach` | sw.js:89 | closing each returned notification in turn produces one `Close` per notification, in order |
| `Handler.HandleMessage` | sw.js:42-91 | the handler's if/else chain produces exactly the effects `Dispatch` assigns to the message |
| `Protocol.WeekdayAttemptsPerDay` | sw.js:64-77 | exactly one attempt per entry of `days`, in order, each with tag `id + '_' + d`, the title, and the candidate for `d` |
| `Protocol.WeekdayReportsPerFailure` | sw.js:75-77 | every `no-trigger` report carries `sch.id`, never a per-day tag, and there is one report per failed attempt |
| `Protocol.WeekdaySchedule` | sw.js:60-78 | a `schedule-weekday` message gives one attempt per day, tagged per day; for `d` in 0..6 and a valid time each timestamp is the next occurrence after `now`; reports carry `sch.id`, one per failure |
| `Protocol.WeekdayTagsDistinct` | sw.js:64-75 | attempts for distinct days carry distinct tags |
| `Protocol.DateSchedule` | sw.js:45-59 | a `schedule-date` message gives one attempt under `sch.id` at the written date and time, and one report carrying `sch.id` exactly when the attempt fails |
| `Protocol.NoTriggerReportsEveryAttempt` | sw.js:21 | without `showNotification` or `TimestampTrigger`, every scheduling attempt gets its own gap report |
| `Protocol.NoTriggerFailsAll` | sw.js:21 | without trigger support, every day of a weekly reminder fails |
| `Protocol.IgnoredMessages` | sw.js:44-91 | a falsy message or one of any other type causes no effect |
| `Protocol.RestorePosts` | sw.js:81-85 | with an active worker, every entry is re-posted in order and unchanged, as `restore-date` iff its type is `'date'` and as `restore-weekday` otherwise; without one nothing is posted |
| `Protocol.RestoredMessagesIgnored` | sw.js:83-84 | each message re-posted by `restore` is ignored when this handler receives it |
| `Protocol.CancelClosesExactly` | sw.js:86-90 | `cancel` only closes notifications, and closes exactly those whose tag equals `msg.id`, or all of them when the id is `undefined` or empty |
| `Protocol.CancelSparesDayTags` | sw.js:88 | cancelling `id` closes no notification tagged `id + '_' + d` |
| `Protocol.CancelIdempotent` | sw.js:88-89 | cancelling the same id a second time, with nothing scheduled in between, closes nothing |
| `Protocol.WeekdayExamples` | sw.js:63-74 | on Wednesday 2024-01-10 at 09:00, Wednesday 08:00 gives 2024-01-17 08:00 and Friday 08:00 gives 2024-01-12 08:00 |
| `Protocol.TwoDayTags` | sw.js:64-75 | `days = [1, 3]` gives attempts tagged `id_1` then `id_3` |

## Left out

- The `install` and `activate` handlers (sw.js:2-8) only call platform lifecycle functions and hold no logic.
- `notifyClients` (sw.js:11-14) enumerates the pages and posts to each. The model records one `Report` effect per broadcast.
- The `notificationclick` handler (sw.js:94-100) focuses or opens a page. It is I/O with no scheduling logic.
- `showNow` (sw.js:37-39) is never called by the message handler.
- The real `showNotification`, `TimestampTrigger` and `getNotifications` are platform calls. They are inputs: two capability flags, an oracle for refused registrations, and the list of held notifications that `getNotifications` filters by tag.
- Time zones and daylight saving are not modelled. Local time and time value coincide, so one day is always 86 400 000 ms.
- ECMA-262 TimeClip, which turns time values beyond ±8.64e15 ms into NaN, is not modelled. Timestamps are unbounded integers.
- `Occurrence.TodayAt`: today's midnight, built with `new Date(now.getFullYear(), now.getMonth(), now.getDate())`, is modelled as the start of `now`'s day number. The two agree for every year outside 0 to 99. For `now` in the years 0 to 99 the `Date` constructor moves that midnight into 1900 to 1999, and the model does not capture this. `Occurrence.CandidateIsNext` and `Protocol.WeekdaySchedule` therefore describe the code only for clocks outside those years.
- Malformed time or date strings, which `parseInt` turns into NaN, are excluded by `Handler.WellFormed`. Partial numbers such as `"8am"` are also excluded.
- Messages that lack the fields their branch reads (the handler would throw a `TypeError`) are not modelled. `days` entries are integers.
- A `null` message `id` is not modelled. `getNotifications({tag: null})` filters on the tag `"null"`, while an `undefined` id (`None`) selects every notification.
- A schedule without an `id` is not modelled: `Schedule.id` is always a string. The code would then register tags `"undefined_" + d` for a weekly reminder and a date reminder with no tag.
- Each attempt's promise is taken as settled right after the attempt. The interleaving of the asynchronous `then` callbacks is not modelled.
- `Occurrence.CandidateIsNext`: stated only for `d` in 0..6 and times 00:00 to 23:59. The code makes no promise for other inputs. For any `d` and a valid time, `Occurrence.CandidateSlot` still gives the weekday as `d` modulo 7.
