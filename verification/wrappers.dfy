/** The optional value used for absent query parameters and for lookups that find no row. */
module Wrappers {

  /** `None` stands for Python's `None`; `Some(v)` for a value that was supplied or found. */
  datatype Option<+T> = None | Some(value: T)
}
