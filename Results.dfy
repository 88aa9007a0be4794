/** Outcomes shared by the resolver: an optional value, and a result that is
    either a value or one of the errors the resolver raises. */
module Results {

  datatype Option<+T> = None | Some(value: T)

  /** The three ways a resolution fails. */
  datatype Error =
    | Unrecognizable            // ArgumentException "unrecognizable DateTime"
    | Unexpected(word: string)  // ArgumentException "unexpected '<word>'": a magnitude that is no number
    | OutOfRange                // ArgumentOutOfRangeException from DateTime arithmetic

  /** A value, or the error that stopped the computation; usable with `:-`. */
  datatype Result<+T> = Ok(value: T) | Err(error: Error) {

    predicate IsFailure() {
      Err?
    }

    function PropagateFailure<U>(): Result<U>
      requires Err?
    {
      Err(error)
    }

    function Extract(): T
      requires Ok?
    {
      value
    }
  }
}
