/** Option, used for error results and for partial decoders. */
module Wrappers {

  datatype Option<+T> = None | Some(value: T)
}
