/** Optional values, results and the failures the two services raise. */
module Wrappers {

  /** A value that may be missing: JavaScript's `undefined`/`null`, or a row `findOne` did not find. */
  datatype Option<+T> = None | Some(value: T) {
    /** The value, or `default` when it is missing. */
    function GetOr(default: T): T {
      if Some? then value else default
    }
  }

  /** JavaScript truthiness of an optional string: present and not empty. */
  predicate Present(s: Option<string>) {
    s.Some? && s.value != ""
  }

  /** JavaScript truthiness of an optional number: present and not 0. */
  predicate Truthy(n: Option<int>) {
    n.Some? && n.value != 0
  }

  /** Why an operation stopped. */
  datatype Reason =
    | MissingFields        // a required payload field is falsy, or no file was sent
    | InvalidDate          // a converted date did not pass the `new Date(..)` / `isNaN` check
    | MissingId            // the id to look up is falsy (absent or 0)
    | MissingIds           // the id list to delete is absent
    | TripNotFound         // no trip row has the requested id
    | ReportNotFound       // no report row has the requested id
    | NoIdsMatched         // none of the listed ids names a row
    | UploadFailed         // the storage collaborator failed to store a file
    | NullDereference      // a property was read from a row that `findOne` did not find (TypeError)
    | EmptyDeleteCriteria  // the ORM refuses `delete(null)`

  /** The exception that reaches the HTTP layer: the two Nest exceptions the services throw,
      or an uncaught error (reported as status 500). */
  datatype Failure =
    | BadRequest(reason: Reason)
    | NotFound(reason: Reason)
    | InternalError(reason: Reason)

  /** The outcome of a service call: a value, or the failure it raised. */
  datatype Result<+T> = Ok(value: T) | Err(failure: Failure)
}
