/** A value that may be missing: SQL NULL, Go nil, a failed lookup. */
module Options {
  datatype Option<+T> = None | Some(value: T)
}
