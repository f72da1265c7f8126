/** A value that may be missing: a nil pointer, a NULL column, a failed parse. */
module Options {
  datatype Option<T> = None | Some(value: T)
}
