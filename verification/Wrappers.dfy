/** Optional values and results carrying an error class. */
module Wrappers {

  datatype Option<+T> = None | Some(value: T)

  datatype Result<+T, +E> = Ok(value: T) | Err(error: E)

  /** The error classes of crates/core/src/lib.rs; the offending text is dropped. */
  datatype CoreError =
    | MissingField(field: string)
    | InvalidField(field: string)
    | InvalidTag(tag: string)
}
