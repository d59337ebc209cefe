/** The optional value used wherever the source has `null`/`undefined`. */
module Opt {
  datatype Option<+T> = None | Some(value: T)
}
