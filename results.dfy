/** Outcome of an operation that the source can abort by raising an exception.
    Every failure of the engine (a `ValueError` or an `IndexError` from popping an
    empty list) is the single value `Err`: callers never distinguish them. */
module Results {

  datatype Result<+T> = Ok(value: T) | Err {

    predicate IsFailure() {
      Err?
    }

    function PropagateFailure<U>(): Result<U>
      requires Err?
    {
      Err
    }

    function Extract(): T
      requires Ok?
    {
      value
    }
  }
}
