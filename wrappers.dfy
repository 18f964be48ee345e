/** The optional value used for TypeScript's `x?: T` fields and `T | null` variables. */
module Wrappers {
  datatype Option<+T> = None | Some(value: T)
}
