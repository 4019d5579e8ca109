/** Small failure-carrying datatypes shared by the pipeline modules. */
module Wrappers {

  /** An optional value: `None` stands for "nothing here". */
  datatype Option<+T> = None | Some(value: T)

  /** The outcome of an operation that can fail with an error of type `E`. */
  datatype Result<+T, +E> = Ok(value: T) | Err(error: E)
}
