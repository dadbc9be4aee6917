/** Optional values, for the places where the source returns `None` or an
    empty result. */
module Wrappers {
  datatype Option<+T> = None | Some(value: T)
}
