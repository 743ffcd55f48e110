/** The option type shared by every module: Go's nil-able pointers, Python's None, TypeScript's null. */
module Wrappers {
  datatype Option<+T> = None | Some(value: T)
}
