/** The optional-value wrapper used for Python's `Optional[...]` and for field presence. */
module Wrappers {

  datatype Option<+T> = None | Some(value: T)
}
