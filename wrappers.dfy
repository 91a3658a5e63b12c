/** Python's `None` beside a value: a table cell that may be blank. */
module Wrappers {
  datatype Option<+T> = None | Some(value: T)
}
