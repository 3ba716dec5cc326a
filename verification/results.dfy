/** Failure-compatible result and option types shared by every module of the
    NitroFS model. `Result` works with Dafny's `:-` so that a failed table read
    aborts the surrounding decode, as an early `return -1` does in the C code. */
module Results {

  datatype Option<+T> = None | Some(value: T)

  datatype Result<+T, +E> = Ok(value: T) | Err(error: E) {

    predicate IsFailure() {
      Err?
    }

    function PropagateFailure<U>(): Result<U, E>
      requires Err?
    {
      Err(error)
    }

    function Extract(): T
      requires Ok?
    {
      value
    }
  }
}
