/** Optional values, used for the parse functions that the source lets fail
    with a ValueError. */
module Wrappers {

  datatype Option<+T> = None | Some(value: T)
}
