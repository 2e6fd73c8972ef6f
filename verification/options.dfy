/** A value that may be missing: NULL, in the source. */
module Options {
  datatype Option<T> = None | Some(value: T)
}
