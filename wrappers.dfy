/** An optional value: what a property lookup in a JavaScript object gives,
    `undefined` being None. */
module Wrappers {
  datatype Option<T> = None | Some(value: T)
}
