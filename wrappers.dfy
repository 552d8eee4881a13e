/** Option type shared by the modules of this model. */
module Wrappers {

  /** A value that may be absent, as JS `null`/`undefined` or an invalid `Date` is. */
  datatype Option<+T> = None | Some(value: T)
}
