/** The optional value used by the model's decoders. */
module Wrappers {

  datatype Option<+T> = None | Some(value: T)
}
