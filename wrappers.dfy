/** Optional values: the model's counterpart of Python's `T | None`. */
module Wrappers {
  datatype Option<+T> = None | Some(value: T)
}
