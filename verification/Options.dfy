/** A value that may be missing: Go's "found" flags, nil results and error returns. */
module Options {
  datatype Option<+T> = None | Some(value: T)
}
