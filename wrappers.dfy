/** Optional values: `None` stands for JavaScript's `null`/`undefined` or for `NaN`. */
module Wrappers {
  datatype Option<+T> = None | Some(value: T)
}
