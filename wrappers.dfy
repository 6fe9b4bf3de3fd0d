/** Optional values: a table cell that pandas may hold as missing (NaN). */
module Wrappers {
  datatype Option<+T> = None | Some(value: T)
}
