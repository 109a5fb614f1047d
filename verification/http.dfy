/** The action results the controllers return, and the record of which service
    calls an action made on the way to its result. */
module Http {
  import opened Wrappers
  import opened Entities

  /** One member of the anonymous route-values object of `CreatedAtAction`. */
  datatype RouteValue = RouteValue(name: string, value: Guid)

  /** `BadRequest()`/`NotFound()` may carry a message; `CreatedAt` is
      `CreatedAtAction(action, routeValues, body)`. `Unhandled` stands for an
      exception escaping the action, left to the controllers' exception
      filter (`HandleExceptionFilter`), which is not part of this model. */
  datatype ActionResult<T> =
    | BadRequest(message: Option<string>)
    | NotFound(message: Option<string>)
    | Conflict(reason: string)
    | Problem(detail: string)
    | CreatedAt(action: string, route: seq<RouteValue>, body: T)
    | Ok(body: T)
    | NoContent
    | Unhandled

  /** An action's result together with the service calls it made, in order. */
  datatype Decision<T, C> = Decision(result: ActionResult<T>, calls: seq<C>)

  /** What an update call yields: a (possibly null) result, or a
      `DbUpdateConcurrencyException`. */
  datatype Outcome<T> = Completed(value: T) | ConcurrencyConflict

  /** The action bodies that return no content. */
  datatype Empty = Empty
}
