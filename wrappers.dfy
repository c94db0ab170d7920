/** Option and Result, the failure-compatible wrappers used across the model. */
module Wrappers {

  datatype Option<+T> = None | Some(value: T)

  /** The Java runtime exceptions that the modelled code can raise on its own. */
  datatype Exception =
    | StringIndexOutOfBounds   // String.substring with a bad range
    | IndexOutOfBounds         // List.get(0) on an empty list
    | IllegalArgument          // Executors.newFixedThreadPool(0)

  datatype Result<+T> = Ok(value: T) | Err(error: Exception)
}
