/** Optional values, used for the "no match" result of every matcher. */
module Wrappers {

  datatype Option<T> = None | Some(value: T)
}
