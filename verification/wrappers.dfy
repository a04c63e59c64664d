/** Failure-compatible datatypes used throughout the ray tracer model.
    `Option` stands for the "no hit" sentinel and for nullable handles;
    `Result` stands for the C++ exceptions the kernel can throw. */
module Wrappers {

  datatype Option<+T> = None | Some(value: T) {
    predicate IsFailure() {
      None?
    }

    function PropagateFailure<U>(): Option<U>
      requires None?
    {
      None
    }

    function Extract(): T
      requires Some?
    {
      value
    }
  }

  /** The exceptions the kernel raises: `std::domain_error` from `inverse()`
      on a singular matrix, and `std::out_of_range` from `std::vector::at`. */
  datatype Error = NotInvertible | OutOfRange

  datatype Result<+R> = Success(value: R) | Failure(error: Error) {
    predicate IsFailure() {
      Failure?
    }

    function PropagateFailure<U>(): Result<U>
      requires Failure?
    {
      Failure(error)
    }

    function Extract(): R
      requires Success?
    {
      value
    }
  }
}
