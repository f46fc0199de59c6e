/** The optional value used for fields the game leaves unset (`None` in the original). */
module Options {
  datatype Option<T> = None | Some(value: T)
}
