/** Optional values, used for JavaScript's `undefined`/`null` and for "no error". */
module Wrappers {

  datatype Option<+T> = None | Some(value: T)
}
