/** The optional value used wherever the Go code has a "found / not found" or an (value, err) pair. */
module Wrappers {

  datatype Option<+T> = None | Some(value: T)
}
