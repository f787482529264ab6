/** Optional values, used wherever the source may find nothing (a dictionary
    lookup that misses, a separator that is absent, a dropdown left unset). */
module Wrappers {

  datatype Option<+T> = None | Some(value: T)
}
