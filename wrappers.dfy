/** Go's nil pointers and "comma ok" lookups as an Option. */
module Wrappers {

  datatype Option<+T> = None | Some(value: T)
}
