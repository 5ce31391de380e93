/** A value that may be absent: std::optional, or a result with an exception in its place. */
module Options {
  datatype Option<T> = None | Some(value: T)
}
