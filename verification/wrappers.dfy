/** The optional value used wherever the scripts return `None` or leaves a field unset. */
module Wrappers {

  datatype Option<+T> = None | Some(value: T)
}
