/** The value that may be missing, shared by every module. */
module Options {
  datatype Option<T> = None | Some(value: T)
}
