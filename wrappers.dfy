/** The optional-value type used where the source answers `null` or `undefined`. */
module Wrappers {
  datatype Option<+T> = None | Some(value: T)
}
