/** A value, or none: what the code marks by a null pointer or an error return. */
module Options {
  datatype Option<T> = None | Some(value: T)
}
