/** The optional value every module uses for "no result". */
module Wrappers {
  datatype Option<T> = None | Some(value: T)
}
