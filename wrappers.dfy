/** Optional values: a missing dictionary key, an absent upload, `None` in Python, `undefined` in JavaScript. */
module Wrappers {

  datatype Option<T> = None | Some(value: T)
}
