/** The optional value that stands for TypeScript's `T | null`. */
module Wrappers {

  /** `None` is JavaScript's `null`; `Some(v)` is a present value. */
  datatype Option<+T> = None | Some(value: T)
}
