/** Failure-compatible wrappers shared by the model.
    A Python exception becomes `Err(msg)`, where `msg` is what `str(e)` gives. */
module Results {

  datatype Option<+T> = None | Some(value: T)

  datatype Result<+T> = Ok(value: T) | Err(msg: string) {

    predicate IsFailure() {
      Err?
    }

    function PropagateFailure<U>(): Result<U>
      requires Err?
    {
      Err(msg)
    }

    function Extract(): T
      requires Ok?
    {
      value
    }
  }

  /** The error carried by a result, if any. */
  function ErrorOf<T>(r: Result<T>): Option<string>
  {
    if r.Err? then Some(r.msg) else None
  }
}
