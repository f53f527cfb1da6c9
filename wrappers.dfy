/** Java's nullable references, as an explicit optional value. */
module Wrappers {
  datatype Option<+T> = None | Some(value: T)
}
