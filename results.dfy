/**
 * Outcomes shared by every part of the model: an optional value (a nullable
 * column or an absent request field) and the result of one request handler.
 */
module Results {

  /** A nullable value: `None` is SQL NULL or an absent JavaScript field. */
  datatype Option<+T> = None | Some(value: T)
  {
    /** The value, or `default` when there is none. */
    function GetOr(default: T): T
    {
      match this
      case Some(v) => v
      case None => default
    }
  }

  /**
   * What one request handler answers, by status family:
   * 200/201 Ok, 404 NotFound, 409 Conflict, 400 Invalid, 403 Forbidden, and
   * Failed for a thrown error answered with 500 after a rollback.
   */
  datatype Outcome = Ok | NotFound | Conflict | Invalid | Forbidden | Failed

  /** A handler's answer that carries data: the data, or the refusal. */
  datatype Result<+T> = Success(value: T) | Failure(error: Outcome)
}
