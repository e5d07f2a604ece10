/** A value that may be missing: Go's nil pointers, zero times, and `ok` results. */
module Options {
  datatype Option<T> = None | Some(value: T)
}
