/** The one option type shared by the decoders and lookups of this project. */
module Wrappers {
  datatype Option<+T> = None | Some(value: T)
}
