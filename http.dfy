/** The HTTP answers the controllers return (ASP.NET Core action results). */
module Http {
  import opened Repository

  datatype ActionResult =
    | Ok
    /** 200 with the listed members as the body. */
    | OkUsers(users: seq<User>)
    /** 201 naming the new photo. */
    | CreatedAtRoute(photo: Photo)
    | NoContent
    | Unauthorized
    | BadRequest(message: string)
    | NotFound
    /** An exception escaped the action (a null dereference, or a failed save that
        the action rethrows); the framework answers 500. */
    | ServerError
}
