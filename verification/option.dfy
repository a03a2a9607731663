/** A value that may be missing: a row that is skipped, a field that does
    not parse, an edge that does not decide. */
module Options {
  datatype Option<T> = None | Some(value: T)
}
