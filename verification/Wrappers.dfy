/** Option, for a pointer or an index that may be absent. */
module Wrappers {
  datatype Option<+T> = None | Some(value: T)
}
