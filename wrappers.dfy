/** An optional value: the model's stand-in for Go's nil pointers and failed library calls. */
module Wrappers {

  datatype Option<+T> = None | Some(value: T)
}
