/** Outcomes of a request handler: a value, or one of the HTTP errors the
    handlers raise, each carrying the `detail` message the client sees. */
module Results {

  datatype Option<T> = None | Some(value: T)

  /** `Ok` is the 200/201 response body; the other three are the
      `HTTPException`s raised with status 400, 404 and 403. */
  datatype Outcome<T> =
    | Ok(value: T)
    | BadRequest(detail: string)
    | NotFound(detail: string)
    | Forbidden(detail: string)
}
