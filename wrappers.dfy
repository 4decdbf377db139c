/** Optional values, used where the source either reports something or does not. */
module Wrappers {

  datatype Option<T> = None | Some(value: T)
}
