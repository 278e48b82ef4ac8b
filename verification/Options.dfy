module Options {
  /** A value, or the absence of one: a failed parse, an unresolved pointer, a missing table entry. */
  datatype Option<+T> = None | Some(value: T)
}
