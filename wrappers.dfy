/** The optional value used where the Java code tests a reference against `null`. */
module Wrappers {
  datatype Option<T> = None | Some(value: T)
}
