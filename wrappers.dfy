/** The optional value of the model. */
module Wrappers {
  datatype Option<T> = None | Some(value: T)
}
