/** Python's `None`-or-value, used for the process handle and for lookups that may find nothing. */
module Wrappers {
  datatype Option<+T> = None | Some(value: T)
}
