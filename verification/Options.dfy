/** A value that may be missing: the null pointers and boolean error returns of the source. */
module Options {
  datatype Option<+T> = None | Some(value: T)
}
