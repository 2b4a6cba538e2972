/** The optional value used for "found / not found" answers of the model. */
module Wrappers {
  datatype Option<+T> = None | Some(value: T)
}
