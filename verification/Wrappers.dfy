/** A value that may be missing: what a null pointer or an error code stands for in the C code. */
module Wrappers {

  datatype Option<T> = None | Some(value: T)
}
