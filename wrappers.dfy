/** The optional value of Python's `Optional[...]` results: `None` or a value. */
module Wrappers {

  datatype Option<+T> = None | Some(value: T)
}
