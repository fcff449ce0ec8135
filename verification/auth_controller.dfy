/** The signup and login handlers (server/src/controllers/authController.js)
    as transitions over the user store. bcrypt's `hash` and `compare` and the
    token signer are function parameters; `freshId` is the id the store
    assigns to a new user, and `now` is the clock in seconds. */
module AuthController {
  import opened Base
  import opened Text
  import opened Schema
  import opened Tokens

  const AllFieldsRequired := Failure(400, "All fields are required")
  const EmailRegistered := Failure(400, "Email already registered")
  const InvalidCredentials := Failure(400, "Invalid credentials")

  /** The `data` of a successful signup or login. */
  datatype Session = Session(token: string, user: PublicUser)

  /** `POST /auth/signup`. The duplicate check looks the email up after the
      query setters normalise it, so it ignores case and surrounding spaces.
      A name or email that trims to nothing passes the falsy check but fails
      the schema's `required` validator, which the handler reports as 500. */
  function Signup(users: UserStore, name: Option<string>, email: Option<string>,
                  password: Option<string>, freshId: UserId,
                  hash: string -> string, sign: Claims -> string, now: int)
    : (r: Reply<UserStore, Session>)
    ensures r.result.Err? ==> r.store == users
    ensures r.result == Err(AllFieldsRequired) <==> Falsy(name) || Falsy(email) || Falsy(password)
    ensures r.result == Err(EmailRegistered) <==>
              && !Falsy(name) && !Falsy(email) && !Falsy(password)
              && EmailTaken(users, NormalizeEmail(email.value))
    ensures r.result.Err? ==>
              r.result in {Err(AllFieldsRequired), Err(EmailRegistered), Err(ServerError)}
    ensures r.result.Ok? <==>
              && !Falsy(name) && !Falsy(email) && !Falsy(password)
              && !EmailTaken(users, NormalizeEmail(email.value))
              && Trim(name.value) != "" && NormalizeEmail(email.value) != ""
              && hash(password.value) != ""
              && freshId !in users
    ensures r.result.Ok? ==>
              && freshId !in users
              && freshId in r.store
              && r.store == users[freshId := r.store[freshId]]
              && var u := r.store[freshId];
              && u.name == Trim(name.value)
              && u.email == NormalizeEmail(email.value)
              && u.passwordHash == hash(password.value)
              && r.result.value.user == Project(freshId, u)
              && r.result.value.token == Issue(sign, freshId, u.email, now)
  {
    if Falsy(name) || Falsy(email) || Falsy(password) then
      Reply(users, Err(AllFieldsRequired))
    else
      var key := NormalizeEmail(email.value);
      if EmailTaken(users, key) then
        Reply(users, Err(EmailRegistered))
      else
        var u := User(Trim(name.value), key, hash(password.value));
        if !UserPassesValidation(u) || freshId in users then
          Reply(users, Err(ServerError))
        else
          Reply(users[freshId := u],
                Ok(Session(Issue(sign, freshId, u.email, now), Project(freshId, u))))
  }

  /** A signup whose email, once normalised, is already stored is refused
      with "Email already registered" and changes nothing. */
  lemma DuplicateEmailRefused(users: UserStore, name: Option<string>, email: Option<string>,
                              password: Option<string>, freshId: UserId,
                              hash: string -> string, sign: Claims -> string, now: int)
    requires !Falsy(name) && !Falsy(email) && !Falsy(password)
    requires EmailTaken(users, NormalizeEmail(email.value))
    ensures Signup(users, name, email, password, freshId, hash, sign, now)
            == Reply(users, Err(EmailRegistered))
  {
  }

  /** Signup keeps the emails unique: its duplicate check looks up the
      very value it then stores. */
  lemma SignupPreservesUniqueEmails(users: UserStore, name: Option<string>, email: Option<string>,
                                    password: Option<string>, freshId: UserId,
                                    hash: string -> string, sign: Claims -> string, now: int)
    requires UniqueEmails(users)
    ensures UniqueEmails(Signup(users, name, email, password, freshId, hash, sign, now).store)
  {
    var r := Signup(users, name, email, password, freshId, hash, sign, now);
    if r.result.Ok? {
      AddUnusedEmail(users, freshId, r.store[freshId]);
    }
  }

  /** Adding a user under a new id, with an email no stored user has, keeps
      the emails unique. */
  lemma AddUnusedEmail(users: UserStore, id: UserId, u: User)
    requires UniqueEmails(users)
    requires id !in users && !EmailTaken(users, u.email)
    ensures UniqueEmails(users[id := u])
  {
    var after := users[id := u];
    forall a | a in after && a != id ensures after[a].email != u.email {
      assert after[a] == users[a];
    }
  }

  /** Signup keeps every stored user valid and the emails unique. */
  lemma SignupPreservesValidUsers(users: UserStore, name: Option<string>, email: Option<string>,
                                  password: Option<string>, freshId: UserId,
                                  hash: string -> string, sign: Claims -> string, now: int)
    requires ValidUsers(users)
    ensures ValidUsers(Signup(users, name, email, password, freshId, hash, sign, now).store)
  {
    SignupPreservesUniqueEmails(users, name, email, password, freshId, hash, sign, now);
    var r := Signup(users, name, email, password, freshId, hash, sign, now);
    if r.result.Ok? {
      forall id | id in r.store ensures ValidUser(r.store[id]) {
        if id != freshId {
          assert r.store[id] == users[id];
        }
      }
    }
  }

  /** A second signup with the same email, in any letter case and with any
      surrounding spaces, is refused and changes nothing. */
  lemma SecondSignupRefused(users: UserStore, name: Option<string>, email: Option<string>,
                            password: Option<string>, freshId: UserId,
                            name2: Option<string>, email2: Option<string>,
                            password2: Option<string>, freshId2: UserId,
                            hash: string -> string, sign: Claims -> string, now: int, now2: int)
    requires !Falsy(name2) && !Falsy(email2) && !Falsy(password2)
    requires !Falsy(email) && NormalizeEmail(email2.value) == NormalizeEmail(email.value)
    ensures var first := Signup(users, name, email, password, freshId, hash, sign, now);
            first.result.Ok? ==>
              Signup(first.store, name2, email2, password2, freshId2, hash, sign, now2)
              == Reply(first.store, Err(EmailRegistered))
  {
    var first := Signup(users, name, email, password, freshId, hash, sign, now);
    if first.result.Ok? {
      assert first.store[freshId].email == NormalizeEmail(email2.value);
    }
  }

  /** The user a login filter on `email` finds: the unique index makes it
      the only one. */
  function FindByEmail(users: UserStore, email: string): (r: Option<UserId>)
    requires UniqueEmails(users)
    ensures r.Some? <==> EmailTaken(users, email)
    ensures r.Some? ==> r.value in users && users[r.value].email == email
  {
    if EmailTaken(users, email) then
      var id :| id in users && users[id].email == email; Some(id)
    else None
  }

  /** `POST /auth/login`. It reads the store and never writes it. An unknown
      email and a wrong password get the same answer. */
  function Login(users: UserStore, email: Option<string>, password: Option<string>,
                 compare: (string, string) -> bool, sign: Claims -> string, now: int)
    : (r: Result<Session>)
    requires UniqueEmails(users)
    ensures r == Err(AllFieldsRequired) <==> Falsy(email) || Falsy(password)
    ensures r.Err? && !Falsy(email) && !Falsy(password) ==> r == Err(InvalidCredentials)
    ensures r.Ok? <==>
              && !Falsy(email) && !Falsy(password)
              && exists id | id in users ::
                   users[id].email == NormalizeEmail(email.value)
                   && compare(password.value, users[id].passwordHash)
    ensures r.Ok? ==>
              exists id | id in users ::
                && users[id].email == NormalizeEmail(email.value)
                && r.value.user == Project(id, users[id])
                && r.value.token == Issue(sign, id, users[id].email, now)
  {
    if Falsy(email) || Falsy(password) then Err(AllFieldsRequired)
    else
      match FindByEmail(users, NormalizeEmail(email.value))
      case None => Err(InvalidCredentials)
      case Some(id) =>
        var u := users[id];
        if !compare(password.value, u.passwordHash) then Err(InvalidCredentials)
        else Ok(Session(Issue(sign, id, u.email, now), Project(id, u)))
  }

  /** Account enumeration is not possible: a login naming an unknown email and
      one giving a registered email with a wrong password fail identically. */
  lemma UnknownEmailLikeWrongPassword(users: UserStore, compare: (string, string) -> bool,
                                      sign: Claims -> string, now: int,
                                      unknown: string, known: string,
                                      password1: string, password2: string)
    requires UniqueEmails(users)
    requires unknown != "" && known != "" && password1 != "" && password2 != ""
    requires !EmailTaken(users, NormalizeEmail(unknown))
    requires forall id | id in users && users[id].email == NormalizeEmail(known) ::
               !compare(password2, users[id].passwordHash)
    ensures Login(users, Some(unknown), Some(password1), compare, sign, now)
            == Login(users, Some(known), Some(password2), compare, sign, now)
            == Err(InvalidCredentials)
  {
  }

  /** Login as a stored user with a password `compare` accepts yields a
      token for that user's `{id, email}` and that user's projection. */
  lemma LoginAsStoredUser(users: UserStore, id: UserId, email: string, password: string,
                          compare: (string, string) -> bool, sign: Claims -> string, now: int)
    requires UniqueEmails(users)
    requires email != "" && password != ""
    requires id in users && users[id].email == NormalizeEmail(email)
    requires compare(password, users[id].passwordHash)
    ensures Login(users, Some(email), Some(password), compare, sign, now)
            == Ok(Session(Issue(sign, id, users[id].email, now), Project(id, users[id])))
  {
    assert EmailTaken(users, NormalizeEmail(email));
    assert FindByEmail(users, NormalizeEmail(email)) == Some(id);
  }

  /** Signing up and then logging in with the same email and password
      succeeds, as the user just created, when `compare` accepts every
      password against its own hash. */
  lemma SignupThenLogin(users: UserStore, name: Option<string>, email: Option<string>,
                        password: Option<string>, freshId: UserId,
                        hash: string -> string, compare: (string, string) -> bool,
                        sign: Claims -> string, now: int, later: int)
    requires UniqueEmails(users)
    requires forall p :: compare(p, hash(p))
    requires Signup(users, name, email, password, freshId, hash, sign, now).result.Ok?
    ensures var r := Signup(users, name, email, password, freshId, hash, sign, now);
            Login(r.store, email, password, compare, sign, later)
            == Ok(Session(Issue(sign, freshId, r.store[freshId].email, later), r.result.value.user))
  {
    var r := Signup(users, name, email, password, freshId, hash, sign, now);
    var u := r.store[freshId];
    assert u.email == NormalizeEmail(email.value) && u.passwordHash == hash(password.value);
    assert r.result.value.user == Project(freshId, u);
    SignupPreservesUniqueEmails(users, name, email, password, freshId, hash, sign, now);
    LoginAsStoredUser(r.store, freshId, email.value, password.value, compare, sign, later);
  }
}
