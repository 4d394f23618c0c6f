/** Optional values and failure-carrying results, used wherever the scripts
    return `null`/`undefined` or throw an `Error` with a message. */
module Results {

  /** A value that may be absent (`null` / `undefined` in the sources). */
  datatype Option<+T> = None | Some(value: T)

  /** Either a computed value or the message of the error the source throws. */
  datatype Result<+T> = Ok(value: T) | Err(msg: string) {

    predicate IsFailure() {
      Err?
    }

    function PropagateFailure<U>(): Result<U>
      requires Err?
    {
      Err(msg)
    }

    function Extract(): T
      requires Ok?
    {
      value
    }
  }
}
