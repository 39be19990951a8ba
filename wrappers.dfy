/** Optional values, for Swift's failable initialisers (`init?`). */
module Wrappers {
  datatype Option<+T> = None | Some(value: T)
}
