/** Failure-compatible wrappers shared by the codec modules. */
module Wrappers {

  /** A value that may be absent; stands in for a nullable Java reference. */
  datatype Option<+T> = None | Some(value: T)

  /** Either a decoded value or the error that stopped the decoding. */
  datatype Result<+T, +E> = Success(value: T) | Failure(error: E) {

    predicate IsFailure() {
      Failure?
    }

    function PropagateFailure<U>(): Result<U, E>
      requires Failure?
    {
      Failure(error)
    }

    function Extract(): T
      requires Success?
    {
      value
    }
  }

  /** Why a decode did not produce a value.
      IndexOutOfBounds is the ArrayIndexOutOfBoundsException the Java code raises when a
      split yields fewer tokens than it reads; the other two are the failures of the
      collaborators (method lookup and query-string decoding), passed through unchanged. */
  datatype DecodeError =
    | IndexOutOfBounds(index: nat, length: nat)
    | UnknownMethod(token: string)
    | MalformedQueryString(query: string)
}
