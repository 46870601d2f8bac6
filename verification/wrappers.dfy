/** A value that may be absent: the model's stand-in for JavaScript's NaN
    results and for object keys that do not exist. */
module Wrappers {

  datatype Option<+T> = None | Some(value: T)
}
