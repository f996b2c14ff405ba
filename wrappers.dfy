/** Option, standing in for the source's nullable references (`null` is `None`). */
module Wrappers {

  datatype Option<+T> = None | Some(value: T)
}
