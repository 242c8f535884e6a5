/** The optional value that the source expresses with `null` or `undefined`. */
module Wrappers {

  datatype Option<+T> = None | Some(value: T)
}
