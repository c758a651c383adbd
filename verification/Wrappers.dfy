/** A value that may be missing: the C code's NULL results. */
module Wrappers {

  datatype Option<+T> = None | Some(value: T)
}
