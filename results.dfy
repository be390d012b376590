/** Failure-compatible wrappers standing in for the exceptions the library's
    bigint and string operations throw, and for optional (possibly
    `undefined`) arguments. */
module Results {

  /** The exceptions that the modelled code can raise. */
  datatype Error =
    | NegativeExponent   // RangeError: `10n ** e` with e < 0
    | DivisionByZero     // RangeError: bigint `/` by 0n
    | BigIntSyntax       // SyntaxError: `BigInt(text)` on text that is not an integer literal
    | NotAnInteger       // RangeError: `BigInt(Number(text))` when the number is NaN or not integral
    | EmptyReduce        // TypeError: `reduce` without initial value on an empty array

  datatype Result<+T> = Success(value: T) | Failure(error: Error) {

    predicate IsFailure() {
      Failure?
    }

    function PropagateFailure<U>(): Result<U>
      requires Failure?
    {
      Failure(error)
    }

    function Extract(): T
      requires Success?
    {
      value
    }
  }

  /** An optional argument: `None` is JavaScript's `undefined`. */
  datatype Option<+T> = None | Some(value: T)
}
