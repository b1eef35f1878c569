/** Optional values: the model's stand-in for JavaScript's falsy/absent
    arguments and for a quotient that has no finite value. */
module Wrappers {

  datatype Option<+T> = None | Some(value: T)
}
