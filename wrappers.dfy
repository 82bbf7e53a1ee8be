/** Option and Result, the two outcome shapes the darcs-patch core uses:
  * `Maybe<T>` (a value or `Nothing()`) and a thrown `std::runtime_error`. */
module Wrappers {

  datatype Option<T> = None | Some(value: T)

  /** `Failure(message)` stands for a `std::runtime_error` the source throws
    * with that message. */
  datatype Result<T> = Success(value: T) | Failure(error: string)
}
