/** An optional value: used where the worker reads a value that may not exist. */
module Wrappers {

  datatype Option<+T> = None | Some(value: T)
}
