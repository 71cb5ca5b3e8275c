/** Failure-carrying wrappers shared by the whole model. */
module Wrappers {

  /** A value that may be absent (a NULL pointer, a search that found nothing). */
  datatype Option<+T> = None | Some(value: T)

  /** A value or the error code the C function returns instead. */
  datatype Result<+T, +E> = Ok(value: T) | Err(error: E)

  /**
   * Which version of a defective routine to follow: the code as it is written, or the
   * code with the defect repaired.
   */
  datatype Policy = AsWritten | Repaired

  /** Why a C operation has no defined result: a read or write outside its block, or a failed `assert`. */
  datatype Fault = OutOfBounds | AssertionFailed
}
