/** The optional value used for results that may be absent (a failed call, a missing directory). */
module Wrappers {
  datatype Option<+T> = None | Some(value: T)
}
