/** Option: the model's stand-in for a Python search that may return None. */
module Wrappers {
  datatype Option<+T> = None | Some(value: T)
}
