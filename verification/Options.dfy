/** A value that may be missing: no clipboard, no result, a null pointer. */
module Options {
  datatype Option<+T> = None | Some(value: T)
}
