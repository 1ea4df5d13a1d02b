/** Optional values: a nullable column or an absent request field. */
module Wrappers {

  datatype Option<+T> = None | Some(value: T)
}
