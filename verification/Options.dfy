/** A value that may be absent: JavaScript's `undefined` and `null`. */
module Options {
  datatype Option<T> = None | Some(value: T)
}
