/** An optional value: Python's "no result" as opposed to a result. */
module Wrappers {

  datatype Option<T> = None | Some(value: T)
}
