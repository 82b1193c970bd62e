/** A value that may be missing, where the C code returns NULL or an error. */
module Options {
  datatype Option<T> = None | Some(value: T)
}
