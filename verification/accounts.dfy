/** User accounts of the back end: registration and login
    (backend/app/main.py) and the command-line tool that creates or promotes
    an administrator (backend/app/create_admin.py). The users table is a
    sequence; the database keeps ids, nicknames and e-mails unique
    (backend/app/models.py:7-9), and PostgreSQL refuses a nickname longer
    than 40 characters or an e-mail longer than 120 (the `String(40)` and
    `String(120)` columns). Password hashing, its check and token signing are
    parameters: their results are all the model needs. */
module Accounts {
  import opened Wrappers
  import opened Schemas

  /** A row of the users table. */
  datatype User = User(id: int, nickname: string, email: string, passwordHash: string, isAdmin: bool)

  /** A nickname and an e-mail that fit their columns. */
  predicate Fits(nickname: string, email: string) {
    |nickname| <= 40 && |email| <= 120
  }

  /** An accepted registration fits the users table exactly when its e-mail
      has at most 120 characters: validation bounds the nickname by the
      column's 40 but leaves the e-mail's length to `EmailStr`. */
  lemma ParsedRegisterFits(b: RegisterBody, isEmail: string -> bool)
    requires ParseRegister(b, isEmail).Success?
    ensures var inp := ParseRegister(b, isEmail).value;
      Fits(inp.nickname, inp.email) <==> |b.email.value| <= 120
  {
  }

  /** The constraints of the users table: every row fits its columns, and
      ids, nicknames and e-mails are unique. */
  predicate Valid(users: seq<User>) {
    && (forall i :: 0 <= i < |users| ==> Fits(users[i].nickname, users[i].email))
    && forall i, j :: 0 <= i < j < |users| ==>
      users[i].id != users[j].id && users[i].nickname != users[j].nickname && users[i].email != users[j].email
  }

  predicate HasId(users: seq<User>, id: int) {
    exists i :: 0 <= i < |users| && users[i].id == id
  }

  /** The first user with this e-mail, the row `select(User).where(User.email == e)`
      finds (there is at most one). */
  function FindByEmail(users: seq<User>, email: string): (r: Option<nat>)
    ensures r.None? <==> forall i :: 0 <= i < |users| ==> users[i].email != email
    ensures r.Some? ==> r.value < |users| && users[r.value].email == email
    ensures r.Some? ==> forall i :: 0 <= i < r.value ==> users[i].email != email
  {
    if users == [] then None
    else if users[0].email == email then Some(0)
    else match FindByEmail(users[1..], email)
      case None => None
      case Some(k) => Some(k + 1)
  }

  // ---------------------------------------------------------------- register

  /** Some user already has the nickname or the e-mail. */
  predicate Taken(users: seq<User>, nickname: string, email: string) {
    exists i :: 0 <= i < |users| && (users[i].email == email || users[i].nickname == nickname)
  }

  /** `register`: 400 when some user already has the e-mail or the nickname;
      500 when the commit fails because the e-mail (or the nickname) is too
      long for its column; otherwise a non-admin user is appended with the
      hash of the password and the answer carries the new user's token.
      `newId` is the id the database hands out and `token` the signed token
      for it. */
  function Register(users: seq<User>, inp: RegisterIn, passwordHash: string, newId: int, token: string)
    : (r: Result<(seq<User>, TokenOut), ApiError>)
    requires !HasId(users, newId)
    ensures r.Failure? <==> Taken(users, inp.nickname, inp.email) || !Fits(inp.nickname, inp.email)
    ensures r.Failure? && Taken(users, inp.nickname, inp.email) ==> r.error.status == BadRequest
    ensures r.Failure? && !Taken(users, inp.nickname, inp.email) ==> r.error == InternalServerError
    ensures r.Success? ==> r.value.0 == users + [User(newId, inp.nickname, inp.email, passwordHash, false)]
    ensures r.Success? ==> r.value.1 == TokenOut(token, "bearer", inp.nickname, false)
    ensures r.Success? && Valid(users) ==> Valid(r.value.0)
  {
    if Taken(users, inp.nickname, inp.email) then
      Failure(ApiError(BadRequest, "Email або nickname вже зайняті"))
    else if !Fits(inp.nickname, inp.email) then
      Failure(InternalServerError)
    else
      Success((users + [User(newId, inp.nickname, inp.email, passwordHash, false)],
               MakeTokenOut(token, inp.nickname, false)))
  }

  /** `login`: 401 unless a user has the e-mail and `verify(password, hash)`
      accepts the password against that user's stored hash; otherwise the
      answer names that user. */
  function Login(users: seq<User>, email: string, password: string,
                 verify: (string, string) -> bool, token: string): (r: Result<TokenOut, ApiError>)
    ensures r.Success? <==>
      exists i :: 0 <= i < |users| && users[i].email == email && verify(password, users[i].passwordHash)
        && (forall j :: 0 <= j < i ==> users[j].email != email)
    ensures r.Failure? ==> r.error.status == Unauthorized
    ensures r.Success? ==>
      exists i :: 0 <= i < |users| && users[i].email == email
        && r.value == TokenOut(token, "bearer", users[i].nickname, users[i].isAdmin)
  {
    match FindByEmail(users, email)
    case None => Failure(ApiError(Unauthorized, "Невірний email або пароль"))
    case Some(k) =>
      if !verify(password, users[k].passwordHash) then Failure(ApiError(Unauthorized, "Невірний email або пароль"))
      else Success(MakeTokenOut(token, users[k].nickname, users[k].isAdmin))
  }

  /** A user who has just registered can log in with the same password,
      provided the password check accepts what the hash was made from. */
  lemma RegisterThenLogin(users: seq<User>, inp: RegisterIn, passwordHash: string, newId: int, token: string,
                          verify: (string, string) -> bool, token2: string)
    requires !HasId(users, newId)
    requires verify(inp.password, passwordHash)
    requires Register(users, inp, passwordHash, newId, token).Success?
    ensures Login(Register(users, inp, passwordHash, newId, token).value.0, inp.email, inp.password, verify, token2)
      == Success(TokenOut(token2, "bearer", inp.nickname, false))
  {
    FindAppended(users, User(newId, inp.nickname, inp.email, passwordHash, false));
  }

  /** An appended user whose e-mail nobody had is found at the end. */
  lemma FindAppended(users: seq<User>, u: User)
    requires forall i :: 0 <= i < |users| ==> users[i].email != u.email
    ensures FindByEmail(users + [u], u.email) == Some(|users|)
  {
    var s := users + [u];
    assert s[|users|] == u;
  }

  /** Registering the same nickname or e-mail a second time is refused. */
  lemma RegisterTwiceFails(users: seq<User>, inp: RegisterIn, h1: string, id1: int, t1: string,
                           h2: string, id2: int, t2: string)
    requires !HasId(users, id1)
    requires Register(users, inp, h1, id1, t1).Success?
    requires !HasId(Register(users, inp, h1, id1, t1).value.0, id2)
    ensures Register(Register(users, inp, h1, id1, t1).value.0, inp, h2, id2, t2).Failure?
  {
    var u := Register(users, inp, h1, id1, t1).value.0;
    assert u[|users|].email == inp.email;
  }

  // ---------------------------------------------------------------- create_admin

  /** A user with another e-mail holds the nickname. */
  predicate NicknameHeld(users: seq<User>, nickname: string, email: string) {
    exists i :: 0 <= i < |users| && users[i].nickname == nickname && users[i].email != email
  }

  /** `main` of create_admin.py. When a user has the e-mail, that user
      becomes an admin with the given nickname, and its hash is replaced when
      the password is non-empty; otherwise an admin user is appended. The
      commit fails with a data error when the nickname or the e-mail is too
      long for its column, and otherwise with an integrity error when another
      user holds the nickname, which is unique. */
  function UpsertAdmin(users: seq<User>, email: string, nickname: string, password: string,
                       passwordHash: string, newId: int): (r: Result<seq<User>, string>)
    requires Valid(users)
    requires !HasId(users, newId)
    ensures r.Failure? <==> !Fits(nickname, email) || NicknameHeld(users, nickname, email)
    ensures r.Failure? ==> (r.error == "DataError" <==> !Fits(nickname, email))
    ensures r.Failure? ==> r.error == "DataError" || r.error == "IntegrityError"
    ensures r.Success? && FindByEmail(users, email).Some? ==>
      var k := FindByEmail(users, email).value;
      && |r.value| == |users|
      && r.value[k] == User(users[k].id, nickname, email,
                             if password != "" then passwordHash else users[k].passwordHash, true)
      && forall i :: 0 <= i < |users| && i != k ==> r.value[i] == users[i]
    ensures r.Success? && FindByEmail(users, email).None? ==>
      r.value == users + [User(newId, nickname, email, passwordHash, true)]
    ensures r.Success? ==> Valid(r.value)
  {
    if !Fits(nickname, email) then
      Failure("DataError")
    else if NicknameHeld(users, nickname, email) then
      Failure("IntegrityError")
    else
      match FindByEmail(users, email)
      case Some(k) =>
        var u := users[k].(isAdmin := true,
                           passwordHash := if password != "" then passwordHash else users[k].passwordHash,
                           nickname := nickname);
        Success(users[k := u])
      case None =>
        Success(users + [User(newId, nickname, email, passwordHash, true)])
  }

  /** Whichever branch runs, the user with the e-mail is afterwards an admin
      with the given nickname, and it is the only user with that e-mail. */
  lemma UpsertMakesAdmin(users: seq<User>, email: string, nickname: string, password: string,
                         passwordHash: string, newId: int)
    requires Valid(users) && !HasId(users, newId)
    requires UpsertAdmin(users, email, nickname, password, passwordHash, newId).Success?
    ensures var u := UpsertAdmin(users, email, nickname, password, passwordHash, newId).value;
      && FindByEmail(u, email).Some?
      && u[FindByEmail(u, email).value].isAdmin
      && u[FindByEmail(u, email).value].nickname == nickname
  {
    var u := UpsertAdmin(users, email, nickname, password, passwordHash, newId).value;
    match FindByEmail(users, email)
    case Some(k) =>
      assert u[k].email == email;
      assert FindByEmail(u, email) == Some(k);
    case None =>
      assert u[|users|].email == email;
      assert FindByEmail(u, email) == Some(|users|);
  }

  /** Running the tool twice with the same arguments and an empty password
      the second time changes nothing more. */
  lemma UpsertIdempotent(users: seq<User>, email: string, nickname: string, password: string,
                         passwordHash: string, newId: int, id2: int)
    requires Valid(users) && !HasId(users, newId)
    requires UpsertAdmin(users, email, nickname, password, passwordHash, newId).Success?
    requires !HasId(UpsertAdmin(users, email, nickname, password, passwordHash, newId).value, id2)
    ensures var u := UpsertAdmin(users, email, nickname, password, passwordHash, newId).value;
      UpsertAdmin(u, email, nickname, "", passwordHash, id2) == Success(u)
  {
    var u := UpsertAdmin(users, email, nickname, password, passwordHash, newId).value;
    UpsertMakesAdmin(users, email, nickname, password, passwordHash, newId);
    var k := FindByEmail(u, email).value;
    var v := UpsertAdmin(u, email, nickname, "", passwordHash, id2).value;
    assert v == u;
  }
}
