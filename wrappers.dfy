/** Failure-compatible wrappers, and one sequence fact, used throughout the model. */
module Wrappers {

  /** An optional value: `None` stands for JavaScript's `null`/`undefined` or a thrown error. */
  datatype Option<+T> = None | Some(value: T)

  /** The outcome of a JavaScript call that either returns a value or throws. */
  datatype Result<+R, +E> = Success(value: R) | Failure(error: E)

  /** Concatenation is associative. */
  lemma AppendAssoc<T>(a: seq<T>, b: seq<T>, c: seq<T>)
    ensures a + (b + c) == (a + b) + c
  {
  }
}
