/** The optional-value datatype used for Python's `Optional[...]` and for
    parse attempts that may fail. */
module Wrappers {

  datatype Option<+T> = None | Some(value: T)
}
