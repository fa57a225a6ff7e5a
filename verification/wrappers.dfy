/** The usual optional-value datatype, used where a Python call either
    produces a value or raises. */
module Wrappers {

  datatype Option<+T> = None | Some(value: T)
}
