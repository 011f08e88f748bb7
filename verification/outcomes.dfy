/** Failure-aware return values shared by every operation of the attendance model. */
module Outcomes {

  /** An optional value, used where the repository returns `Optional` or a map lookup may miss. */
  datatype Option<+T> = None | Some(value: T) {

    /** The wrapped value, or `default` when there is none (Java's `orElse`). */
    function GetOr(default: T): T {
      match this
      case Some(v) => v
      case None => default
    }
  }

  /** The exceptions the services raise, by kind. */
  datatype Failure =
    | NotFound(message: string)        // CustomException with HttpStatus.NOT_FOUND
    | BadRequest(message: string)      // CustomException with HttpStatus.BAD_REQUEST
    | DateTimeParse(text: string)      // LocalDate.parse rejected a string
    | DateTimeInvalid                  // LocalDate.of / YearMonth.of rejected a month number
    | NullPointer                      // a null collection was dereferenced

  /** Either the value an operation produced or the failure it raised. */
  datatype Result<+T> = Ok(value: T) | Err(failure: Failure)
}
