/** The optional value used wherever the service returns or holds PHP's `null`. */
module Wrappers {

  datatype Option<+T> = None | Some(value: T)

}
