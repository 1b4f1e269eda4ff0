/** The one utility datatype the models share: JavaScript's `undefined` or `null` next to a value. */
module Wrappers {
  datatype Option<+T> = None | Some(value: T)
}
