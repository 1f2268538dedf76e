/** A value that may be missing, for null pointers and for "not found". */
module Options {
  datatype Option<+T> = None | Some(value: T)
}
