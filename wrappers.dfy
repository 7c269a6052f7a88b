// The optional value returned by reads and removals.

module Wrappers {

  datatype Option<T> = None | Some(value: T)
}
