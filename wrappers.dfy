/** Java's nullable references, as an optional value. */
module Wrappers {
  datatype Option<+T> = None | Some(value: T)
}
