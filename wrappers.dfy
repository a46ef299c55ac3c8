/** A value that may be absent: stands for a Python operation that raised. */
module Wrappers {

  datatype Option<+T> = None | Some(value: T)
}
