/** A value that may be missing, as Rust's `Option` holds it. */
module Wrappers {

  datatype Option<T> = None | Some(value: T)
}
