/** The error taxonomy of the entity-access layer and the result type its
    operations return instead of throwing. */
module Results {

  datatype Option<+T> = None | Some(value: T)

  /** The typed conditions the models raise (ExpressError subclasses), plus
      ServerError for failures the database reports, which reach the
      boundary handler as status 500. */
  datatype Error =
    | BadRequest(message: string)
    | NotFound(message: string)
    | Unauthorized(message: string)
    | ServerError(message: string)

  datatype Result<+T> = Ok(value: T) | Err(error: Error)
}
