/** The failures the containers signal instead of throwing C++ exceptions. */
module Outcomes {

  /** std::length_error, std::out_of_range and the allocator's std::bad_array_new_length. */
  datatype Error = LengthError | OutOfRange | BadAlloc

  /** The outcome of an operation that returns nothing (a `void` member function). */
  datatype Outcome = Success | Failure(error: Error)

  /** The outcome of an operation that returns a value. */
  datatype Result<T> = Ok(value: T) | Err(error: Error)
}
