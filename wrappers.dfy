/** The absence signal the store and the pages use in place of JavaScript's `undefined` and `null`. */
module Wrappers {

  datatype Option<+T> = None | Some(value: T)
}
