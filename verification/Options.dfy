/** A value that may be absent: `undefined`, `null`, or an index of -1 in the source. */
module Options {
  datatype Option<T> = None | Some(value: T)
}
