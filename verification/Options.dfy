/** A value that may be absent: a NULL or a zero offset of the original. */
module Options {
  datatype Option<+T> = None | Some(value: T)
}
