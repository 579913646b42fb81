/** Values that stand in for the C# code's null references and thrown
    exceptions, so that every model operation is a total function. */
module Results {

  /** A reference that may be null: `None` is null. */
  datatype Option<+T> = None | Some(value: T)

  /** The outcome of a reader: the value it produced, or the error it threw.
      The three members below let `:-` stop at the first error. */
  datatype Result<+R, +E> = Success(value: R) | Failure(error: E) {

    predicate IsFailure() {
      this.Failure?
    }

    /** The same error, with the type of the value the caller expected. */
    function PropagateFailure<U>(): Result<U, E>
      requires IsFailure()
    {
      Failure(this.error)
    }

    function Extract(): R
      requires !IsFailure()
    {
      this.value
    }
  }
}
