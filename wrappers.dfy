/** Optional values: the model's stand-in for C#'s `null`, `out` parameters and "not found". */
module Wrappers {

  datatype Option<+T> = None | Some(value: T)

}
