/** A value that may be missing: the second result of a Go lookup. */
module Options {

  datatype Option<T> = None | Some(value: T)
}
