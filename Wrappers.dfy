/** A value that may be missing: a contract read that has not arrived yet, or a property that is `undefined`. */
module Wrappers {

  datatype Option<+T> = None | Some(value: T)
}
