/** A value that may be absent: a row a query did not find, a nullable column. */
module Wrappers {

  datatype Option<+T> = None | Some(value: T)

}
