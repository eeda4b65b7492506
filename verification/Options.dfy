/** A value that may be absent: Go's nil pointers to plain values, and absent schema parameters. */
module Options {
  datatype Option<+T> = None | Some(value: T)
}
