/** Option and Result values for the outcomes the JavaScript code signals
    with `null` or with a thrown exception. */
module Wrappers {

  datatype Option<+T> = None | Some(value: T)

  datatype Result<+T, +E> = Ok(value: T) | Err(error: E)
}
