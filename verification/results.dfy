/** Failure-compatible wrappers and the error kinds of the store.
    Every operation that can throw an SSaaDBError returns a Result. */
module Results {

  datatype Option<+T> = None | Some(value: T)

  /** The three error kinds the store raises. */
  datatype DbError =
    | TableNotFound(table: string)
    | TableAlreadyExists(table: string)
    | InvalidOperator(operator: string)

  datatype Result<+T> = Ok(value: T) | Err(error: DbError) {

    predicate IsFailure() {
      Err?
    }

    function PropagateFailure<U>(): Result<U>
      requires Err?
    {
      Err(error)
    }

    function Extract(): T
      requires Ok?
    {
      value
    }
  }
}
