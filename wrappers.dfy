/** Optional values: the model's stand-in for a C pointer that may be NULL
    where the pointer is not itself an address (indices, sizes). */
module Wrappers {

  datatype Option<+T> = None | Some(value: T)
}
