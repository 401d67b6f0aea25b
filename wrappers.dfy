/** The optional value used for nullable strings and for operations that may fail. */
module Wrappers {

  /** Some value, or none (a null reference, or a thrown exception). */
  datatype Option<+T> = None | Some(value: T)
}
