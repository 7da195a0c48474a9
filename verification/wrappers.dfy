/** The optional value returned by the decoding functions of the model. */
module Wrappers {
  datatype Option<+T> = None | Some(value: T)
}
