/** Option, used where the source has a null pointer or an absent out-parameter. */
module Wrappers {
  datatype Option<+T> = None | Some(value: T)
}
