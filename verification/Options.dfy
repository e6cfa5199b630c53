/** Values that may be missing: Python's None, an absent key, an index that fails. */
module Options {
  datatype Option<+T> = None | Some(value: T)
}
