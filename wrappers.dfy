/** The optional value used for Python's `None` and pandas' missing value. */
module Wrappers {

  datatype Option<+T> = None | Some(value: T)
}
