/** Go's nil-or-value results (a `*time.Time` that may be nil, a `func` that may be nil). */
module Wrappers {

  datatype Option<+T> = None | Some(value: T)
}
