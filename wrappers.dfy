/** Optional values: the model's stand-in for a null pointer, a Python None
    or a file that could not be opened. */
module Wrappers {
  datatype Option<+T> = None | Some(value: T)
}
