/** Optional values: a header that may fail to parse, a request body that may
    fail to decode, a session lookup that may miss. */
module Wrappers {

  datatype Option<+T> = None | Some(value: T)
}
