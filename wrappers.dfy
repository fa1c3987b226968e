/** The optional-value datatype used for operations that may fail without a reason. */
module Wrappers {
  datatype Option<+T> = None | Some(value: T)
}
