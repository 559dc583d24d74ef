/** Failure-compatible result type shared by the reassembler and the decoders.
    Every exception the backend message parser can raise collapses into one of
    two failure kinds. */
module Results {

  /** Why a frame could not be turned into a record.
      - Unsupported: the tag or the authentication sub-type has no decoder.
      - Malformed: the payload is shorter than a field it declares, a string
        is missing its terminator, or a frame header declares a length below 4. */
  datatype Failure = Unsupported | Malformed

  datatype Result<+T> = Ok(value: T) | Err(error: Failure) {

    predicate IsFailure() {
      Err?
    }

    function PropagateFailure<U>(): Result<U>
      requires Err?
    {
      Err(error)
    }

    function Extract(): T
      requires Ok?
    {
      value
    }
  }

  datatype Option<+T> = None | Some(value: T)
}
