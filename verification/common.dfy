/** Shared result and error types of the ShareIt model.

    The services signal failure by throwing one of a handful of exception
    classes; the model collapses them into one closed `Error` datatype whose
    payload records WHICH check failed, so that the order of the checks is
    observable in the contracts. */
module Common {

  /** A possibly-absent value: Java's `null` / `Optional.empty()`. */
  datatype Option<+T> = None | Some(value: T) {
    function GetOr(default: T): T {
      match this
      case Some(v) => v
      case None => default
    }
  }

  /** Why a `NotFoundException` (or one of its per-entity variants) is raised. */
  datatype Missing =
    | NoSuchUser
    | NoSuchItem
    | NoSuchBooking
    | NoSuchRequest
    | OwnItem          // an owner trying to book their own item
    | NotParticipant   // a third party looking at someone else's booking

  /** Why a `BadRequestException` is raised by the booking service. */
  datatype BadRequestReason =
    | ItemUnavailable
    | EndBeforeStart
    | EndEqualsStart
    | StatusAlreadySet

  /** Why a `ValidationException` (or a bean-validation failure) is raised. */
  datatype ValidationReason =
    | NegativeFrom
    | NonPositiveSize
    | BlankDescription
    | DescriptionTooLong
    | NotARenter
    | InvalidBookingRequest

  datatype Error =
    | NotFound(missing: Missing)
    | Forbidden                        // ForbiddenException: not the item's owner
    | BadRequest(reason: BadRequestReason)
    | Validation(invalid: ValidationReason)
    | AccessDenied                     // AccessDeniedException: not the item's owner
    | NonUniqueResult                  // a single-result query that found several rows

  /** What Spring Data does with the rows of a query method that returns
      `Optional`: empty, the one row, or an error when there are several. */
  function SingleResult<T>(rows: seq<T>): (r: Result<Option<T>>)
    ensures |rows| == 0 <==> r == Ok(None)
    ensures |rows| == 1 <==> r.Ok? && r.value.Some?
    ensures r.Ok? && r.value.Some? ==> r.value.value == rows[0]
    ensures |rows| > 1 <==> r == Err(NonUniqueResult)
  {
    if |rows| == 0 then Ok(None)
    else if |rows| == 1 then Ok(Some(rows[0]))
    else Err(NonUniqueResult)
  }

  /** The outcome of a check that returns nothing on success. */
  datatype Outcome = Pass | Fail(error: Error)

  datatype Result<+T> = Ok(value: T) | Err(error: Error) {
    predicate IsFailure() {
      Err?
    }

    function PropagateFailure<U>(): Result<U>
      requires Err?
    {
      Err(error)
    }

    function Extract(): T
      requires Ok?
    {
      value
    }
  }
}
