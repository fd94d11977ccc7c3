/** An optional value, used for reads that can come up short and for Go's `error` results. */
module Wrappers {
  datatype Option<+T> = None | Some(value: T)
}
