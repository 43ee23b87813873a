/** Optional values, standing in for the nullable fields (`number | null`) of the source. */
module Wrappers {

  datatype Option<+T> = None | Some(value: T)
}
