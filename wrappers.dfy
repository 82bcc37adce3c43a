/** The "value or nothing" result that the containers return where the
    Java code returns null. */
module Wrappers {

  datatype Option<T> = None | Some(value: T)
}
