/** Java's nullable references, as an explicit option. */
module Wrappers {
  datatype Option<+T> = None | Some(value: T)
}
