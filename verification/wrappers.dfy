/** Failure-carrying results, used for the source's `Result` returns and,
    tagged separately, for its panics. */
module Wrappers {

  /** An 8-bit unsigned value, the element type of a Rust `&[u8]`. */
  type byte = b: int | 0 <= b < 0x100

  datatype Result<+T, +E> = Success(value: T) | Failure(error: E) {

    predicate IsFailure() {
      Failure?
    }

    function PropagateFailure<U>(): Result<U, E>
      requires Failure?
    {
      Failure(error)
    }

    function Extract(): T
      requires Success?
    {
      value
    }

    /** Rewrites the error of a failure, as Rust's `map_err` does. */
    function MapFailure<F>(f: E -> F): (r: Result<T, F>)
      ensures r.Success? <==> Success?
      ensures Success? ==> r.value == value
      ensures Failure? ==> r.error == f(error)
    {
      match this
      case Success(v) => Success(v)
      case Failure(e) => Failure(f(e))
    }
  }
}
