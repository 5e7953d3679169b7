/** A value, or nothing where the source panics or has no number to give. */
module Options {
  datatype Option<T> = None | Some(value: T)
}
