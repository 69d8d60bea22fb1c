/** The optional value used for "no match" and "aborted" outcomes. */
module Wrappers {
  datatype Option<+T> = None | Some(value: T)
}
