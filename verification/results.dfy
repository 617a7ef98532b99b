/** Failure-compatible datatypes shared by the rewriter's steps. */
module Results {

  /** An optional value: a regex match that may be absent, an insertion that may not be needed. */
  datatype Option<+T> = None | Some(value: T)

  /** The outcome of one step of the command. A failing step carries the message of the
      error it throws and the notifications it already showed to the user before throwing. */
  datatype Result<+T> = Ok(value: T) | Err(message: string, notified: seq<string>) {

    predicate IsFailure() {
      Err?
    }

    function PropagateFailure<U>(): Result<U>
      requires Err?
    {
      Err(message, notified)
    }

    function Extract(): T
      requires Ok?
    {
      value
    }
  }
}
