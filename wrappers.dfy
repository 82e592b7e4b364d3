/** The optional value used throughout the model (Python's "value or nothing"). */
module Wrappers {

  datatype Option<+T> = None | Some(value: T)
}
