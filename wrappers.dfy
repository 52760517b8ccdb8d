/** Failure-compatible result types shared by every module of the model. */
module Wrappers {

  /** A value that may be absent: JavaScript's `undefined` for a missing field. */
  datatype Option<+T> = None | Some(value: T) {
    function GetOr(default: T): T {
      match this
      case Some(v) => v
      case None => default
    }
  }

  /** The outcome of an operation that may raise an error. */
  datatype Result<+R, +E> = Success(value: R) | Failure(error: E) {
    predicate IsFailure() {
      Failure?
    }

    function PropagateFailure<U>(): Result<U, E>
      requires Failure?
    {
      Failure(error)
    }

    function Extract(): R
      requires Success?
    {
      value
    }
  }

  /** The outcome of a state-changing operation that returns nothing but may raise an error. */
  datatype Outcome<+E> = Pass | Fail(error: E)

  /** Forgets the value of a result, keeping only whether (and why) it failed. */
  function Status<R, E>(r: Result<R, E>): Outcome<E> {
    match r
    case Success(_) => Pass
    case Failure(e) => Fail(e)
  }

  /**
   * Regrouping a concatenation, stated once over any element type so that
   * callers need not re-derive it where facts about the parts are in scope.
   */
  lemma ConcatAssoc<T>(a: seq<T>, b: seq<T>, c: seq<T>)
    ensures (a + b) + c == a + (b + c)
  {
  }
}
