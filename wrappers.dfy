/** Optional values, and the truthiness test Python applies to an optional string. */
module Wrappers {

  datatype Option<+T> = None | Some(value: T)

  /** `if s:` in Python: None and the empty string are false, every other string is true. */
  predicate Truthy(s: Option<string>)
  {
    s.Some? && s.value != ""
  }
}
