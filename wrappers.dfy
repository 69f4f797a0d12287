/** An optional value: stands for a field that the relay store may hold as null. */
module Wrappers {

  datatype Option<+T> = None | Some(value: T)
}
