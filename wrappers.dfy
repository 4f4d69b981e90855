/** Option, for values that may be absent and for operations that may fail. */
module Wrappers {
  datatype Option<+T> = None | Some(value: T)
}
