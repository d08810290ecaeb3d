/** Absence of a value: a failed fetch, a string that does not parse. */
module Wrappers {

  datatype Option<+T> = None | Some(value: T)
}
