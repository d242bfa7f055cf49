/**
 * Failure results shared by the three containers.
 *
 * The containers report failures by throwing std::out_of_range,
 * std::underflow_error or std::logic_error; every throwing operation
 * validates its input before it changes anything, so in this model a
 * throwing operation returns `Err(e)` and leaves the container as it was.
 */
module Wrappers {

  /** The three failure kinds the containers raise. */
  datatype Error =
    | OutOfRange  // an index at or beyond the size (std::out_of_range)
    | Underflow   // access to or removal from an empty container (std::underflow_error)
    | LogicError  // binary search on a list whose sortedness flag is false (std::logic_error)

  /** Either the value an operation returns or the failure it raised. */
  datatype Result<+T> = Ok(value: T) | Err(error: Error)
}
