// Optional values, for Go's nil pointers, absent map entries and the
// (value, ok) pairs of the source.
module Wrappers {

  datatype Option<T> = None | Some(value: T)
}
