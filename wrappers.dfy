/** Option and Result values used in place of the C program's unchecked
    outcomes: a conversion that produced nothing, and the process exit
    that `err_sys` performs on an invalid UTF-8 leading byte. */
module Wrappers {

  datatype Option<+T> = None | Some(value: T)

  /** The one decoding failure of the program: `err_sys("utf2unicode: invalid utf")`. */
  datatype Error = InvalidUtf8

  datatype Result<+T> = Ok(value: T) | Err(error: Error)
}
