/** The optional value returned by lookups that can come back empty (Python's `Optional`). */
module Wrappers {

  datatype Option<+T> = None | Some(value: T)
}
