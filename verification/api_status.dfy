/**
 * Failure-carrying results shared by the service model.
 *
 * The Java code signals errors by throwing a handler exception that carries an
 * `ErrorStatus`; here each such throw becomes an `Err` value, and `null` becomes
 * `None`.
 */
module ApiStatus {

  /** The error codes the modelled code can raise. */
  datatype ErrorStatus =
    | WeekNotFound
    | QuarterNotFound
    | AnnouncementNotPrepared
    | VoteAuthRequired
      /** `IllegalArgumentException` from `PageRequest.of` (page size below one). */
    | IllegalPageRequest

  datatype Option<+T> = None | Some(value: T)

  datatype Result<+T> = Ok(value: T) | Err(error: ErrorStatus) {

    predicate IsFailure() {
      Err?
    }

    function PropagateFailure<U>(): Result<U>
      requires Err?
    {
      Err(error)
    }

    function Extract(): T
      requires Ok?
    {
      value
    }
  }
}
