/** The optional value used where the renderer hands back a possibly-null
    pointer or a value that may not exist. */
module Wrappers {
  datatype Option<+T> = None | Some(value: T)
}
