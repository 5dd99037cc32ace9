/** A value that may be missing: a null pointer, a failed lookup, an npos. */
module Options {
  datatype Option<+T> = None | Some(value: T)
}
