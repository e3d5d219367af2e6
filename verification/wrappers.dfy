/** An optional value: the stand-in for an address that may be NULL. */
module Wrappers {

  datatype Option<+T> = None | Some(value: T)
}
