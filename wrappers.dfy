/** Optional values: Ruby's `nil` for "no value" is `None`. */
module Wrappers {

  datatype Option<+T> = None | Some(value: T)
}
