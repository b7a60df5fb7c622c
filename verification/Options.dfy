/** A value that may be missing, or an operation that may throw. */
module Options {
  datatype Option<T> = None | Some(value: T)
}
