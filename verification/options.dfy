/** An optional value: Go's nil-able pointers and `(value, ok)` returns. */
module Options {

  datatype Option<+T> = None | Some(value: T)
}
