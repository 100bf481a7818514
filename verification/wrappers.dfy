/** Optional value, used where the modelled code either produces a value or
    reports that there is none. */
module Wrappers {

  datatype Option<+T> = None | Some(value: T)
}
