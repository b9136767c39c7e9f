/** An optional value: a state field or a response field that may be absent. */
module Wrappers {

  datatype Option<+T> = None | Some(value: T)
}
