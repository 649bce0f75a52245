/** The nullable values of the source (`null` / `undefined`) as an explicit option type. */
module Wrappers {
  datatype Option<+T> = None | Some(value: T)
}
