/** An optional value, standing for the source's `null` and its absent results. */
module Wrappers {
  datatype Option<+T> = None | Some(value: T)
}
