/** Optional values: `None` stands for JavaScript's `undefined`, `null` or an invalid parse. */
module Wrappers {

  datatype Option<+T> = None | Some(value: T)
}
