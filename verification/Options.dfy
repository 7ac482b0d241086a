/** A value that may be missing: the result of a computation that can raise, or of an optional step. */
module Options {
  datatype Option<T> = None | Some(value: T)
}
