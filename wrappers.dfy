/** The optional value used for results a library call may not produce. */
module Wrappers {

  datatype Option<+T> = None | Some(value: T)
}
