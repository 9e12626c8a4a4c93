/** Small failure-compatible helper datatype used across the model. */
module Wrappers {

  /** Go's nil-able values (a nil `error`, a missing option) as an explicit option. */
  datatype Option<+T> = None | Some(value: T)
}
