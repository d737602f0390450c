/** Nullable values: a JSON field or column that may be null or missing. */
module Wrappers {

  datatype Option<+T> = None | Some(value: T)
}
