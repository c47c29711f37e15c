/** The optional value that stands for Python's `None` (a nullable column,
    an `Optional[...]` field, or a query that finds no row). */
module Wrappers {

  datatype Option<+T> = None | Some(value: T)
}
