/** The optional results of the decoders (`std::optional` in the source). */
module Wrappers {
  datatype Option<+T> = None | Some(value: T)
}
