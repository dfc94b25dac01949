/** The optional value used throughout the model for lookups and for
    decoders that may reject their input. */
module Wrappers {

  datatype Option<+T> = None | Some(value: T)
}
