/** A column that may be NULL, or a Ruby value that may be nil. */
module Options {
  datatype Option<+T> = None | Some(value: T)

  /** A uuid, as the 128-bit number whose order PostgreSQL uses. */
  type Id = nat
}
