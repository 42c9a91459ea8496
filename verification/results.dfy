/** Failure-compatible wrappers shared by every module of the model.

    The modelled program reports its failures as Python exceptions; each
    kind of exception it can raise on the modelled paths is one `Error`
    case, and a computation that may raise returns a `Result`.
 */
module Results {

  /** The exceptions the transcription code can raise. */
  datatype Error =
    | KeyError(key: string)        // a column name missing from the column map
    | NotInList(item: string)      // `list.index` of an absent element (ValueError)
    | IndexError                   // a list or string index out of range
    | NoneAnswer                   // a missing device answer used as a string (TypeError or AttributeError)
    | UnboundResult(tag: string)   // an unknown write style leaves `result` unbound
    | NotAnInteger(text: string)   // `int()` of a string that is not a number (ValueError)

  /** Either the value computed or the exception raised. */
  datatype Result<+T> = Ok(value: T) | Err(error: Error) {

    predicate IsFailure() {
      Err?
    }

    function PropagateFailure<U>(): Result<U>
      requires Err?
    {
      Err(error)
    }

    function Extract(): T
      requires Ok?
    {
      value
    }
  }

  /** Python's `None` or a value. */
  datatype Option<+T> = None | Some(value: T)
}
