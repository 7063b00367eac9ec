/** The error responses the media routes and their middleware send. */
module Http {
  import opened Wrappers

  /** An error reply: an HTTP status code and the JSON `message` sent with it. */
  datatype HttpError = HttpError(status: nat, message: string)

  const BadRequest := 400
  const Unauthorized := 401
  const Forbidden := 403
  const NotFound := 404
  const ServerError := 500

  /** The reply `isAuthenticated` sends when the session holds no user. */
  const AuthenticationRequired := HttpError(Unauthorized, "Authentication required")
  /** The reply `isCreator` sends when the user is missing or not a creator. */
  const CreatorAccessRequired := HttpError(Forbidden, "Creator access required")
  const MediaNotFound := HttpError(NotFound, "Media not found")
  const GenericServerError := HttpError(ServerError, "Server error")

  /** The session test `if (req.session.userId)`: a user id is present and,
      being a string, truthy only when it is not empty. */
  predicate SignedIn(sessionUser: Option<string>) {
    sessionUser.Some? && sessionUser.value != ""
  }
}
