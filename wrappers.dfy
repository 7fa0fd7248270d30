/** Optional values: a missing cookie, a missing body field, a lookup that finds nothing. */
module Wrappers {

  datatype Option<+T> = None | Some(value: T)
}
