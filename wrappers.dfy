/** The nullable-pointer datatype used throughout the model: `None` stands for
    a C `NULL`, `Some(v)` for a non-null pointer to `v`. */
module Wrappers {

  datatype Option<+T> = None | Some(value: T)
}
