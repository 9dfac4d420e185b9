/** The failure kinds of one calculation and the failure-compatible wrappers that carry them.
    The calculator signals every failure by throwing a plain exception; the model tells the
    kinds apart by the check that raised it. */
module Results {

  /** One constructor per check that can end a calculation. */
  datatype Error =
    | MalformedExpression   // null or blank input, unknown character, second operator
    | MixedNotation         // one operand Roman, the other not
    | InvalidNumeral        // operand neither a table numeral nor a Java int literal
    | OperandOutOfRange     // an operand above 10
    | DivisionByZero        // integer division by zero
    | UnknownOperator       // sign outside + - * /
    | ResultOutOfRange      // Roman-mode result outside [1, 4000]

  datatype Option<+T> = None | Some(value: T)

  /** A value or the failure that replaced it. */
  datatype Result<+R, +E> = Success(value: R) | Failure(error: E) {
    predicate IsFailure() {
      Failure?
    }

    function PropagateFailure<U>(): Result<U, E>
      requires Failure?
    {
      Failure(error)
    }

    function Extract(): R
      requires Success?
    {
      value
    }
  }

  /** The outcome of a check that returns nothing when it passes. */
  datatype Outcome<+E> = Pass | Fail(error: E) {
    predicate IsFailure() {
      Fail?
    }

    function PropagateFailure<U>(): Result<U, E>
      requires Fail?
    {
      Failure(error)
    }
  }
}
