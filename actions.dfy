/**
 * What a controller action answers over HTTP. An exception the action does not catch
 * reaches ASP.NET Core, which answers 500 without a body of the controller's making.
 */
module Actions {
  import opened Store

  /** An exception that escapes an action. */
  datatype Exception =
    | ConcurrencyException            // DbUpdateConcurrencyException, re-thrown by `throw;`
    | UpdateException(fault: Fault)   // DbUpdateException wrapping the SQLite error

  datatype ActionResult<T> =
    | Ok(value: T)                      // 200 with `value` as body
    | CreatedAt(id: int, value: T)      // 201; Location names the GET of `id`; `value` as body
    | NoContent                         // 204
    | BadRequest                        // 400
    | NotFound                          // 404
    | ErrorBody(error: Fault)           // 500 with { error, innerError } built by the action
    | Unhandled(exception: Exception)   // 500 from an exception the action let escape

  /** The HTTP status code of an answer. */
  function StatusCode<T>(r: ActionResult<T>): (code: int)
    ensures 200 <= code < 600
    ensures code < 300 <==> r.Ok? || r.CreatedAt? || r.NoContent?
    ensures code == 500 <==> r.ErrorBody? || r.Unhandled?
  {
    match r
    case Ok(_) => 200
    case CreatedAt(_, _) => 201
    case NoContent => 204
    case BadRequest => 400
    case NotFound => 404
    case ErrorBody(_) => 500
    case Unhandled(_) => 500
  }
}
