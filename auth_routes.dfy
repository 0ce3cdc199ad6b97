/** The `/token` and `/register` endpoints (`app/auth/routes.py`). Token
    creation is supplied as an uninterpreted function of the subject. */
module AuthRoutes {
  import opened Outcomes
  import opened AuthLogic
  import opened Dependencies

  /** The response of `/token`. */
  datatype Token = Token(accessToken: string, tokenType: string)

  /** The response model of `/register`: the user without the password hash. */
  datatype UserOut = UserOut(email: string, username: string, fullName: Option<string>)

  /** `create_access_token(data={"sub": subject})`, expiry included. */
  type Issuer = string -> string

  /** `login_for_access_token`: a bearer token for the subject `username` when
      the credentials check out; one uniform 401 otherwise. */
  function LoginForAccessToken(users: seq<User>, username: string, password: string,
                               hasher: PasswordHasher, issue: Issuer): (r: Result<Token, HttpError>)
    ensures r.Failure? <==> AuthenticateUser(users, username, password, hasher).None?
    ensures r.Failure? ==> r.error == IncorrectCredentials
    ensures r.Success? ==> r.value == Token(issue(username), "bearer")
  {
    var user := AuthenticateUser(users, username, password, hasher);
    if user.None? then Failure(IncorrectCredentials)
    else Success(Token(issue(user.value.username), "bearer"))
  }

  /** An unknown username and a wrong password for a known one are answered
      identically. */
  lemma LoginFailuresIndistinguishable(users: seq<User>, unknown: string, known: string, wrong: string,
                                       hasher: PasswordHasher, issue: Issuer)
    requires forall j :: 0 <= j < |users| ==> users[j].username != unknown
    requires FindByUsername(users, known).Some?
    requires !hasher.verify(wrong, FindByUsername(users, known).value.hashedPassword)
    ensures LoginForAccessToken(users, unknown, wrong, hasher, issue)
            == LoginForAccessToken(users, known, wrong, hasher, issue)
            == Failure(IncorrectCredentials)
  {
  }

  /** The library decodes a token it issued for `subject` back to a payload
      whose `sub` is `subject` (the token has not yet expired). */
  ghost predicate RoundTrips(decode: Decoder, issue: Issuer, subject: string)
  {
    decode(issue(subject)).Some? && "sub" in decode(issue(subject)).value
    && decode(issue(subject)).value["sub"] == subject
  }

  /** The token from a successful login authenticates the same user on the
      next request: its `sub` is the key `get_current_user` looks up by. */
  lemma LoginThenAccess(users: seq<User>, username: string, password: string,
                        hasher: PasswordHasher, issue: Issuer, decode: Decoder)
    requires LoginForAccessToken(users, username, password, hasher, issue).Success?
    requires RoundTrips(decode, issue, username)
    ensures var token := LoginForAccessToken(users, username, password, hasher, issue).value;
            GetCurrentUser(token.accessToken, decode, users)
            == Success(AuthenticateUser(users, username, password, hasher).value)
  {
  }

  /** `register_user_endpoint`: straight delegation to `register_user`, the
      stored user returned through the response model. */
  method RegisterUserEndpoint(store: UserStore, hasher: PasswordHasher, u: UserCreate) returns (r: Result<UserOut, StoreError>)
    requires store.Valid()
    modifies store
    ensures store.Valid()
    ensures r.Failure? <==> old(Clashes(store.users, u.email, u.username))
    ensures r.Failure? ==> store.users == old(store.users)
    ensures r.Success? ==> && r.value == UserOut(u.email, u.username, None)
                           && store.users == old(store.users) + [User(old(store.nextId), u.email, u.username, hasher.hash(u.password), None)]
  {
    var registered := store.RegisterUser(hasher, u);
    match registered
    case Failure(e) => r := Failure(e);
    case Success(user) => r := Success(UserOut(user.email, user.username, user.fullName));
  }
}
