/** An optional value, for the server's `None`-or-value fields and lookups. */
module Wrappers {

  datatype Option<+T> = None | Some(value: T)
}
