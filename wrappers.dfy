/** Option, used for JavaScript's `undefined` and for a search that may find nothing. */
module Wrappers {
  datatype Option<+T> = None | Some(value: T)
}
