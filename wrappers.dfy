/** The optional value the worker writes as `T | null` */
module Wrappers {
  datatype Option<+T> = None | Some(value: T)
}
