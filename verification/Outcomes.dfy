/** How an operation of the library ends: with a value, or with one of its exceptions. */
module Outcomes {

  datatype Error =
    | OutOfRange        // std::out_of_range
    | InvalidArgument   // std::invalid_argument
    | EmptyArgument     // exception::EmptyArgument
    | EmptyMember       // exception::EmptyMember
    | InvalidState      // exception::InvalidState
    | RuntimeError      // std::runtime_error and std::range_error
    | LengthError       // std::length_error
    | ZeroAllocatedSize // exception::ZeroAllocatedSize
    | OutsideBuffer     // no exception: memory outside a buffer is read or written
    | Hangs             // no exception: the call never returns

  datatype Result<+T> = Ok(value: T) | Err(error: Error)

  datatype Option<+T> = None | Some(value: T)

  /** The end of an operation that returns nothing. */
  datatype Status = Done | Failed(error: Error)
}
