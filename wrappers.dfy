/** Optional values: the model's stand-in for the C# `null` results of the source. */
module Wrappers {
  datatype Option<T> = None | Some(value: T)
}
