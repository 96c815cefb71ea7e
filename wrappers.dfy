/** The result of `Checker`: Python's `None` or a character. */
module Wrappers {
  datatype Option<+T> = None | Some(value: T)
}
