/** The two ways a value can be missing: absent, or an error the source raises. */
module Wrappers {

  datatype Option<T> = None | Some(value: T)

  datatype Result<T> = Ok(value: T) | Err
}
