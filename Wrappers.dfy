/** Option: the model's stand-in for a pointer that may be null, and for a
    conversion that may throw. */
module Wrappers {

  datatype Option<+T> = None | Some(value: T)

}
