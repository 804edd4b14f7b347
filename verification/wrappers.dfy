/** The outcome of an operation that can throw: its value, or the message it throws. */
module Wrappers {

  datatype Result<+R> = Success(value: R) | Failure(error: string) {
    predicate IsFailure() {
      Failure?
    }
  }
}
