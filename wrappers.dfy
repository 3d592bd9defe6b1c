/** Optional values: a missing URL parameter, a failed fetch, a search not yet scheduled. */
module Wrappers {

  datatype Option<+T> = None | Some(value: T)
}
