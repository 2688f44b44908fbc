/** A value that may be absent: pandas' NaN cell in a derived column, or a
    lookup that finds nothing. */
module Wrappers {
  datatype Option<+T> = None | Some(value: T)
}
