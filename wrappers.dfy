/** The Option type, standing for Go's nil-or-value fields. */
module Wrappers {
  datatype Option<+T> = None | Some(value: T)
}
