/** A value that may be missing: the C code's NULL content pointers and -1 results. */
module Options {
  datatype Option<+T> = None | Some(value: T)
}
