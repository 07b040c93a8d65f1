/** An optional value: null, undefined, NaN or a thrown exception, as each function says. */
module Wrappers {
  datatype Option<+T> = None | Some(value: T)
}
