/** Optional values: the model's stand-in for JavaScript's `null`/`undefined` and for the
    lookups that are wrapped in `try/catch` in the page script. */
module Wrappers {

  datatype Option<+T> = None | Some(value: T)
}
