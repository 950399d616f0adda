/** An optional value: a JSON key that may be missing, a directory that may not exist. */
module Wrappers {

  datatype Option<T> = None | Some(value: T)
}
