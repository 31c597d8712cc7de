/** The optional value used by both components: a parse that may not match,
    a timestamp that may not have been set, a callback slot that may be empty. */
module Options {
  datatype Option<+T> = None | Some(value: T)
}
