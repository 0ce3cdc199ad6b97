/** Resolution of a bearer token to the stored user (`get_current_user` in
    `app/dependencies.py`). Signature, algorithm and expiry checks happen inside
    the token library and are supplied as one uninterpreted decode function. */
module Dependencies {
  import opened Outcomes
  import opened AuthLogic

  /** The claims of a decoded token, by name. */
  type Payload = map<string, string>

  /** `jwt.decode` with the configured secret and algorithm at the current time:
      `None` for any forged, malformed or expired token. */
  type Decoder = string -> Option<Payload>

  /** `get_current_user`: decode the token, read its `sub`, look the user up by
      username. Every failure is the same 401 with the Bearer challenge. */
  function GetCurrentUser(token: string, decode: Decoder, users: seq<User>): (r: Result<User, HttpError>)
    ensures r.Failure? ==> r.error == CouldNotValidate
    ensures r.Success? <==>
              (&& decode(token).Some?
               && "sub" in decode(token).value
               && exists j :: 0 <= j < |users| && users[j].username == decode(token).value["sub"])
    ensures r.Success? ==> r.value in users && r.value.username == decode(token).value["sub"]
  {
    match decode(token)
    case None => Failure(CouldNotValidate)
    case Some(payload) =>
      if "sub" !in payload then Failure(CouldNotValidate)
      else match FindByUsername(users, payload["sub"])
        case None => Failure(CouldNotValidate)
        case Some(user) => Success(user)
  }
}
