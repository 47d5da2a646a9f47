/** A nullable value: a database column that may hold NULL, or a request
    field that may be absent. */
module Wrappers {

  datatype Option<+T> = None | Some(value: T)
}
