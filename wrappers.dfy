/** The optional value used for "no match" results. */
module Wrappers {
  datatype Option<+T> = None | Some(value: T)
}
