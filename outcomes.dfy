/** Values shared by every layer: optional values, tagged outcomes in place of
    raised exceptions, and the HTTP errors the application raises. */
module Outcomes {

  datatype Option<+T> = None | Some(value: T)

  /** Success or the error the source would raise at that point. */
  datatype Result<+T, +E> = Success(value: T) | Failure(error: E)

  /** An `HTTPException`: status code, `detail` text, and whether it carries the
      `WWW-Authenticate: Bearer` header. */
  datatype HttpError = HttpError(status: int, detail: string, bearerChallenge: bool)

  /** Raised by `get_item` for a missing row and for another user's row alike. */
  const ItemNotFound := HttpError(404, "Item not found", false)

  /** The two 403 errors of `update_item` and `delete_item`. */
  const NotAuthorizedToModify := HttpError(403, "Not authorized to modify this item", false)
  const NotAuthorizedToDelete := HttpError(403, "Not authorized to delete this item", false)

  /** `read_items` rejects an inverted price range. */
  const InvertedPriceRange := HttpError(400, "min_price cannot be greater than max_price", false)

  /** The single `credentials_exception` of `get_current_user`. */
  const CouldNotValidate := HttpError(401, "Could not validate credentials", true)

  /** The login failure of `login_for_access_token`. */
  const IncorrectCredentials := HttpError(401, "Incorrect username or password", true)

  /** Request validation failure for a query parameter; the framework's
      structured `detail` is reduced to the parameter's name. */
  function Unprocessable(parameter: string): HttpError
  {
    HttpError(422, parameter, false)
  }
}
