/** Failure-compatible wrappers shared by the tree modules: `Option` stands for
    Python's "value or None" results, `Result` for "value or raised error". */
module Wrappers {

  datatype Option<+T> = None | Some(value: T)

  datatype Result<+T, +E> = Ok(value: T) | Err(error: E)
}
