/** The optional value used for absent request fields and for SQL queries that may find no row. */
module Wrappers {
  datatype Option<+T> = None | Some(value: T)
}
