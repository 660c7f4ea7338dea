/** Optional values: `None` stands for JavaScript's `null`/`undefined` result of a lookup. */
module Wrappers {

  datatype Option<+T> = None | Some(value: T)
}
