/**
 The failure kinds the Java library can raise, and a result type that carries
 either a value or the exception a call would have thrown.
 */
module Results {

  /** The exceptions the modelled code can throw. */
  datatype Error =
    | NullPointer            // Objects.requireNonNull, or a method call on a null cell
    | IllegalArgument        // Polynomial.getCoefficient on a bad index
    | IndexOutOfBounds       // an array store or System.arraycopy outside the array
    | NegativeArraySize      // new T[n] with n < 0
    | Arithmetic             // BigDecimal.setScale when rounding would be necessary

  datatype Result<+T> = Ok(value: T) | Err(error: Error) {

    predicate IsFailure() {
      Err?
    }

    function PropagateFailure<U>(): Result<U>
      requires Err?
    {
      Err(error)
    }

    function Extract(): T
      requires Ok?
    {
      value
    }
  }

  /** A Java reference that may be null. */
  datatype Option<+T> = None | Some(value: T)
}
