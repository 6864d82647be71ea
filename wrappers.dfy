/** Optional values, used for Rust's `Option` and for operations that may abort. */
module Wrappers {
  datatype Option<T> = None | Some(value: T)
}
