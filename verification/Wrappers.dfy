/** The optional value used across the models. */
module Wrappers {
  datatype Option<+T> = None | Some(value: T)
}
