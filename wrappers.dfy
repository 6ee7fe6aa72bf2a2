/** Optional values, the counterpart of Rust's `Option<T>`, used by every module. */
module Wrappers {
  datatype Option<T> = None | Some(value: T)
}
