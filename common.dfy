/** Result types shared by the store, the request dependencies and the route handlers. */
module Common {

  datatype Option<T> = None | Some(value: T)

  /** The HTTP errors the handlers raise: 404, 400, 409, and 500 for Internal, an exception that nobody catches. */
  datatype Error = NotFound | BadRequest | Conflict | Internal

  datatype Result<T> = Ok(value: T) | Err(error: Error)
}
