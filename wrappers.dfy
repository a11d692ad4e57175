/** Failure-compatible Option and Result types shared by every module of the model.
    A Rust `panic!`, `todo!()` or failed `unwrap` becomes a `Failure` carrying an `Error`. */
module Wrappers {

  datatype Option<+T> = None | Some(value: T) {
    predicate IsFailure() { None? }

    function PropagateFailure<U>(): Option<U>
      requires None?
    {
      None
    }

    function Extract(): T
      requires Some?
    {
      value
    }

    function GetOr(default: T): T {
      match this
      case Some(v) => v
      case None => default
    }
  }

  /** Why a modelled operation stops instead of returning a value. */
  datatype Error =
    | DenominatorZero        // Rational64::new with a zero denominator
    | NotAFactor             // remove_factor on something that is not a factor
    | OutOfFuel              // the model's bound on simplify's recursion was reached
    | IndexOutOfBounds       // v[0], remove(0), split_at past the end of a Vec
    | InvalidLatex           // the bracket-balance check of latex_to_equation
    | InvalidFraction        // \frac not followed by an opening bracket
    | TrailingLatex          // latex left over after a bare command
    | Unsupported            // a todo!() branch of the parser or emitter
    | ParseIntError          // str::parse::<i64> failed

  datatype Result<+T> = Success(value: T) | Failure(error: Error) {
    predicate IsFailure() { Failure? }

    function PropagateFailure<U>(): Result<U>
      requires Failure?
    {
      Failure(error)
    }

    function Extract(): T
      requires Success?
    {
      value
    }
  }
}
