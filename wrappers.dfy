/** Optional values: JavaScript's `null`/`undefined` (and NaN where a number is expected) become `None`. */
module Wrappers {

  datatype Option<+T> = None | Some(value: T)

}
