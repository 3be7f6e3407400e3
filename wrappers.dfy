/** Optional values: a clue that may be absent, a status that may be None. */
module Wrappers {

  datatype Option<+T> = None | Some(value: T)
}
