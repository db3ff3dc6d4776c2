/** JavaScript values the service worker reads from messages: a property that
    may be missing (`undefined`), and the `||` defaulting it relies on. */
module Js {

  /** A property that is either absent (`undefined`) or present. `null` is
      not modelled. */
  datatype Option<T> = None | Some(value: T)

  /** JavaScript truthiness of an optional string: absent and `""` are falsy. */
  predicate Truthy(s: Option<string>)
  {
    s.Some? && s.value != ""
  }

  /** `s || fallback` for an optional string. */
  function OrElse(s: Option<string>, fallback: string): (r: string)
    ensures Truthy(s) ==> r == s.value
    ensures !Truthy(s) ==> r == fallback
  {
    if Truthy(s) then s.value else fallback
  }
}
