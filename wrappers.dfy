/** Option stands for a Java reference or boxed value that may be null; Result for a return value
    or a thrown checked exception. */
module Wrappers {

  datatype Option<+T> = None | Some(value: T)

  datatype Result<+R, +E> = Ok(value: R) | Err(error: E)
}
