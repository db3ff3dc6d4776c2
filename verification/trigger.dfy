/** `scheduleUsingTrigger` (sw.js): register a notification to be shown at a
    timestamp, when the platform offers timestamp triggers. The platform is an
    input: whether `registration.showNotification` is a function, whether
    `TimestampTrigger` is defined, and an oracle telling which registrations
    the platform refuses (the `TimestampTrigger` constructor or
    `showNotification` throwing, or the returned promise rejecting). */
module Trigger {
  import opened Js

  /** The options object handed to `showNotification`, with its title:
      `{body: data || '', tag: id, showTrigger: new TimestampTrigger(timestamp),
      renotify: true}`. */
  datatype Request = Request(title: string, body: string, tag: string, timestamp: int, renotify: bool)

  datatype Capabilities = Capabilities(
    showNotificationIsFunction: bool,
    timestampTriggerDefined: bool,
    refuses: Request -> bool)

  /** How the `try` block of `scheduleUsingTrigger` ends. */
  datatype Completion = Returned(value: bool) | FellThrough | Threw

  /** The registration request for a reminder occurrence. */
  function TriggerRequest(id: string, title: string, timestamp: int, data: Option<string>): (req: Request)
    ensures req.tag == id && req.title == title && req.timestamp == timestamp && req.renotify
    ensures Truthy(data) ==> req.body == data.value
    ensures !Truthy(data) ==> req.body == ""
  {
    Request(title, OrElse(data, ""), id, timestamp, true)
  }

  /** The `try` block: feature detection, then the awaited registration. */
  function TryBlock(caps: Capabilities, req: Request): Completion
  {
    if caps.showNotificationIsFunction && caps.timestampTriggerDefined then
      if caps.refuses(req) then Threw else Returned(true)
    else FellThrough
  }

  /** The whole function: a thrown error is caught (and logged), and every path
      that does not return inside the `try` block returns false. */
  function ScheduleUsingTrigger(caps: Capabilities, id: string, title: string, timestamp: int,
                                data: Option<string>): (ok: bool)
    ensures ok <==> caps.showNotificationIsFunction && caps.timestampTriggerDefined
                    && !caps.refuses(TriggerRequest(id, title, timestamp, data))
  {
    match TryBlock(caps, TriggerRequest(id, title, timestamp, data))
    case Returned(v) => v
    case FellThrough => false
    case Threw => false
  }
}
