/** The optional value used for the source's `Option` returns and optional components. */
module Wrappers {
  datatype Option<+T> = None | Some(value: T)
}
