/** Result type for the operations that raise in the source. */
module Wrappers {

  datatype Result<T, E> = Ok(value: T) | Err(error: E)

}
