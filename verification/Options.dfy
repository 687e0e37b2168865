/** A value that may be missing: a failed lookup, a line not printed, an event not emitted. */
module Options {
  datatype Option<+T> = None | Some(value: T)
}
