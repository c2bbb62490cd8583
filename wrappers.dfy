/** Optional values, used where the source has "no value" (a cast with no defined result,
    or "no particle is skipped"). */
module Wrappers {
  datatype Option<T> = None | Some(value: T)
}
