/** The optional value used wherever the Java code returns null, throws, or
    drops a packet instead of producing a result. */
module Wrappers {

  datatype Option<T> = None | Some(value: T)
}
