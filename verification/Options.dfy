/** A value that may be missing: NULL pointers and failed operations. */
module Options {
  datatype Option<+T> = None | Some(value: T)
}
