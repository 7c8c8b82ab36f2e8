/** The optional values the TypeScript code expresses with `undefined` or `null`. */
module Wrappers {
  datatype Option<+T> = None | Some(value: T)
}
