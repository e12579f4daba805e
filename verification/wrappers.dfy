/** The `Option` type shared by the other modules. */
module Wrappers {

  /** A value that may be absent; also stands for a possibly-NULL C pointer. */
  datatype Option<+T> = None | Some(value: T)
}
