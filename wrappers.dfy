/** An optional value: a nullable database column or a `find` that may come back empty. */
module Wrappers {

  datatype Option<+T> = None | Some(value: T)

}
