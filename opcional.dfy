/** A value that may be absent: a JSON field that is missing, or a query that matched no row. */
module Opcional {
  datatype Option<+T> = None | Some(value: T)
}
