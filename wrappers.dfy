/** The optional value used wherever the script returns `null`, `false` or `undefined`. */
module Wrappers {
  datatype Option<+T> = None | Some(value: T)
}
