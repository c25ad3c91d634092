/** The optional value shared by the decoders and the dispatcher. */
module Wrappers {
  datatype Option<T> = None | Some(value: T)
}
