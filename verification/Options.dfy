/** The result of a lookup or a partial function. */
module Options {
  datatype Option<T> = None | Some(value: T)
}
