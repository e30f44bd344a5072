module Wrappers {
  /** A pointer that may be NULL, by the value it leads to. */
  datatype Option<T> = None | Some(value: T)
}
