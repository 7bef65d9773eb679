/** Optional values, used for the outcome of calls that can fail (a missing
    file, a parse that raises, a conversion that raises). */
module Wrappers {

  datatype Option<+T> = None | Some(value: T)
}
