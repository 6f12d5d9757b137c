/** The Option type used in place of Java's `null` results and exceptions. */
module Wrappers {
  datatype Option<+T> = None | Some(value: T)
}
