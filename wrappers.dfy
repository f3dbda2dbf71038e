/** The "value or nothing" type that stands for Python's `None` returns. */
module Wrappers {

  datatype Option<+T> = None | Some(value: T)
}
