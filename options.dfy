/** The optional value used across the model: a JSON field that may be
    absent, a parse that may fail, a search that may find nothing. */
module Options {
  datatype Option<T> = None | Some(value: T)
}
