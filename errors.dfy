/** The exceptions a compact bitset operation can throw, and a result that is either
    a value or one of them. */
module Errors {

  /** `std::out_of_range`, `std::invalid_argument` and `std::overflow_error`. */
  datatype Error = OutOfRange | InvalidArgument | Overflow

  datatype Result<T> = Ok(value: T) | Err(error: Error)
}
