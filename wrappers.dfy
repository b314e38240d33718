/** Option values for lookups and decodings that may fail. */
module Wrappers {

  datatype Option<+T> = None | Some(value: T)
}
