/** The optional value used for a node's parent link, its incoming action and its lazily cached list. */
module Options {
  datatype Option<T> = None | Some(value: T)
}
