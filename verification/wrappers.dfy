/** Optional values, and the JavaScript `a || b` fallback on optional strings
    that the screens use for route parameters. */
module Wrappers {

  datatype Option<+T> = None | Some(value: T)

  /** A JavaScript string value is truthy when it is present and non-empty. */
  predicate Truthy(o: Option<string>) {
    o.Some? && o.value != ""
  }

  /** `o || fallback` for an optional string: the value itself when truthy,
      otherwise the fallback. */
  function OrElse(o: Option<string>, fallback: string): (r: string)
    ensures Truthy(o) ==> r == o.value && r != ""
    ensures !Truthy(o) ==> r == fallback
  {
    if Truthy(o) then o.value else fallback
  }
}
