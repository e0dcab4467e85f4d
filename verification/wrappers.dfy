/** Swift's `Optional`, as the usual Some/None datatype. */
module Wrappers {

  datatype Option<+T> = None | Some(value: T)
}
