/** Optional values: a nil pointer, or a result that an operation may not produce. */
module Wrappers {

  datatype Option<+T> = None | Some(value: T)
}
