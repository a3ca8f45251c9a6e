/** An optional value: a null pointer, a failed lookup, a free slot. */
module Options {
  datatype Option<+T> = None | Some(value: T)
}
