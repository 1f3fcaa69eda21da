/** The optional value of the source: JavaScript's `null` / `undefined` beside a real value. */
module Wrappers {
  datatype Option<+T> = None | Some(value: T)
}
