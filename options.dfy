/** The optional value used for a slot that may hold a C pointer or NULL. */
module Options {
  /** `None` stands for a NULL pointer, `Some(v)` for a non-NULL one. */
  datatype Option<T> = None | Some(value: T)
}
