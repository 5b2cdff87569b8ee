/** Option and Result, the shapes used for Java's nullable references and exceptions. */
module Wrappers {

  /** A Java reference that may be null: None is null. */
  datatype Option<+T> = None | Some(value: T)

  /** The outcome of a Java call that may throw: Failure carries the exception. */
  datatype Result<+R, +E> = Success(value: R) | Failure(error: E) {
    predicate IsFailure() {
      Failure?
    }

    function PropagateFailure<U>(): Result<U, E>
      requires Failure?
    {
      Failure(error)
    }

    function Extract(): R
      requires Success?
    {
      value
    }
  }

  /** A prefix-consuming reader's result with `done` produced ahead of what it produced. */
  function Prepended<T, S, E>(done: seq<T>, r: Result<(seq<T>, S), E>): Result<(seq<T>, S), E>
  {
    match r
    case Success((xs, rest)) => Success((done + xs, rest))
    case Failure(e) => Failure(e)
  }

  /** Producing in two pieces is producing their concatenation. */
  lemma PrependedTwice<T, S, E>(a: seq<T>, b: seq<T>, r: Result<(seq<T>, S), E>)
    ensures Prepended(a, Prepended(b, r)) == Prepended(a + b, r)
  {
    if r.Success? {
      assert a + (b + r.value.0) == (a + b) + r.value.0;
    }
  }
}
