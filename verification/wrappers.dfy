/** The optional-value type used where the source has no answer yet. */
module Wrappers {
  datatype Option<T> = None | Some(value: T)
}
