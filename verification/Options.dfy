module Options {
  /** A value or none: nullable columns, optional parameters, and errors that carry nothing. */
  datatype Option<T> = None | Some(value: T)
}
