/** Option and Result, the failure-compatible datatypes the other modules return, a few words for sequences, and the
    largest safe integer. */
module Prelude {

  datatype Option<+T> = None | Some(value: T)

  /** `Err` stands for a raised Python exception; the call that raised did nothing else. */
  datatype Result<+T, +E> = Ok(value: T) | Err(error: E) {

    predicate IsFailure() {
      Err?
    }

    function PropagateFailure<U>(): Result<U, E>
      requires Err?
    {
      Err(error)
    }

    function Extract(): T
      requires Ok?
    {
      value
    }
  }

  /** The largest integer a JSON number is trusted with: 2^53 - 1. */
  const MAX_SAFE_INTEGER := 0x1F_FFFF_FFFF_FFFF

  function Front<T>(s: seq<T>): seq<T>
    requires s != []
  {
    s[..|s| - 1]
  }

  function Last<T>(s: seq<T>): T
    requires s != []
  {
    s[|s| - 1]
  }

  lemma Regroup<T>(a: seq<T>, b: seq<T>, c: seq<T>)
    ensures a + b + c == a + (b + c)
  {
  }
}
