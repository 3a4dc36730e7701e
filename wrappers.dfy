/** Optional values and results, standing for JavaScript's `undefined` and for thrown errors. */
module Wrappers {

  /** `None` stands for `undefined` (an absent property or a failed match). */
  datatype Option<+T> = None | Some(value: T)

  /** `Err` stands for an exception the program does not catch. */
  datatype Result<+T, +E> = Ok(value: T) | Err(error: E)
}
