/** A value that may be absent, standing for a C argument that may be NULL. */
module Options {
  datatype Option<T> = None | Some(value: T)
}
