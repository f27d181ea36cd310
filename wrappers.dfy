/** The optional value that stands for Python's `None` or a missing result. */
module Wrappers {
  datatype Option<+T> = None | Some(value: T)
}
