/** The user store, registration and credential checking
    (`app/auth/auth_logic.py`). Password hashing and verification are supplied
    from outside as an uninterpreted pair of functions. */
module AuthLogic {
  import opened Outcomes

  datatype User = User(id: int, email: string, username: string, hashedPassword: string, fullName: Option<string>)

  /** The body of a registration request (`UserCreate`). */
  datatype UserCreate = UserCreate(email: string, username: string, password: string, fullName: Option<string>)

  /** `get_password_hash` and `verify_password`. */
  datatype PasswordHasher = PasswordHasher(hash: string -> string, verify: (string, string) -> bool)

  /** The store's uniqueness violation (`IntegrityError`); the application does
      not catch it. */
  datatype StoreError = IntegrityError

  /** `query(User).filter(User.username == username).first()`. */
  function FindByUsername(users: seq<User>, username: string): (r: Option<User>)
    ensures r.Some? <==> exists j :: 0 <= j < |users| && users[j].username == username
    ensures r.Some? ==> r.value.username == username && r.value in users
  {
    if |users| == 0 then None
    else if users[0].username == username then Some(users[0])
    else FindByUsername(users[1..], username)
  }

  /** Appending a user whose username is new does not change any lookup of an
      existing username, and makes the new one resolve to that user. */
  lemma {:induction false} FindByUsernameAppend(users: seq<User>, u: User, username: string)
    requires forall j :: 0 <= j < |users| ==> users[j].username != u.username
    ensures FindByUsername(users + [u], username)
            == if username == u.username then Some(u) else FindByUsername(users, username)
  {
    if users == [] {
      assert FindByUsername([u], username) == if username == u.username then Some(u) else None;
    } else {
      assert (users + [u])[1..] == users[1..] + [u];
      FindByUsernameAppend(users[1..], u, username);
    }
  }

  /** `authenticate_user`: the stored user with that username, when the
      password verifies against its hash; otherwise nothing. */
  function AuthenticateUser(users: seq<User>, username: string, password: string, hasher: PasswordHasher): (r: Option<User>)
    ensures r.Some? <==> FindByUsername(users, username).Some?
                         && hasher.verify(password, FindByUsername(users, username).value.hashedPassword)
    ensures r.Some? ==> r.value in users && r.value.username == username
                        && hasher.verify(password, r.value.hashedPassword)
    ensures (forall j :: 0 <= j < |users| ==> users[j].username != username) ==> r.None?
  {
    var user := FindByUsername(users, username);
    if user.Some? && hasher.verify(password, user.value.hashedPassword) then user else None
  }

  /** A user just registered with `password` can log in with it, provided the
      hasher verifies a password against its own hash. */
  lemma RegisterThenAuthenticate(users: seq<User>, u: User, password: string, hasher: PasswordHasher)
    requires forall j :: 0 <= j < |users| ==> users[j].username != u.username
    requires u.hashedPassword == hasher.hash(password)
    requires hasher.verify(password, hasher.hash(password))
    ensures AuthenticateUser(users + [u], u.username, password, hasher) == Some(u)
  {
    FindByUsernameAppend(users, u, u.username);
  }

  /** A registration clashes with the store when its email or its username is taken. */
  predicate Clashes(users: seq<User>, email: string, username: string)
  {
    exists j :: 0 <= j < |users| && (users[j].email == email || users[j].username == username)
  }

  /** The `users` table, with `email` and `username` unique. */
  class UserStore {
    var users: seq<User>
    var nextId: int

    ghost predicate Valid()
      reads this
    {
      && (forall j :: 0 <= j < |users| ==> users[j].id < nextId)
      && (forall i, j :: 0 <= i < j < |users| ==>
            users[i].id != users[j].id && users[i].email != users[j].email
            && users[i].username != users[j].username)
    }

    constructor ()
      ensures Valid() && users == []
    {
      users := [];
      nextId := 1;
    }

    /** `register_user`: one new user with the hash of the password and no
        full name, or the store's uniqueness violation with nothing added. */
    method RegisterUser(hasher: PasswordHasher, u: UserCreate) returns (r: Result<User, StoreError>)
      requires Valid()
      modifies this
      ensures Valid()
      ensures r.Failure? <==> old(Clashes(users, u.email, u.username))
      ensures r.Failure? ==> users == old(users) && nextId == old(nextId)
      ensures r.Success? ==> && r.value == User(old(nextId), u.email, u.username, hasher.hash(u.password), None)
                             && users == old(users) + [r.value]
      ensures r.Success? && hasher.verify(u.password, hasher.hash(u.password))
              ==> AuthenticateUser(users, u.username, u.password, hasher) == Some(r.value)
    {
      var dbUser := User(nextId, u.email, u.username, hasher.hash(u.password), None);
      if Clashes(users, u.email, u.username) {
        r := Failure(IntegrityError);
        return;
      }
      if hasher.verify(u.password, hasher.hash(u.password)) {
        RegisterThenAuthenticate(users, dbUser, u.password, hasher);
      }
      users := users + [dbUser];
      nextId := nextId + 1;
      r := Success(dbUser);
    }
  }
}
