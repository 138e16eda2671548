/** `AuthController`: the earlier login and registration handlers, which read
    `req.body` directly. Login only reads the table; registration checks, then
    inserts the body as it came. */
module AuthController {
  import opened Common
  import opened Strings
  import opened HttpErrors
  import opened UserStore
  import opened AuthUtil

  const LoginSuccessful := "Login successful"
  const UserAlreadyExists := "User already exists"
  const PasswordsDoNotMatch := "Passwords do not match"
  const RegisterSuccessful := "Register successful"

  /** bcryptjs rejects an argument that is not a string. */
  function IllegalArguments(password: Option<string>, hashed: Option<string>): Error {
    Other(None, JStr("Illegal arguments: " + TypeOf(password) + ", " + TypeOf(hashed)))
  }

  /** The 200 body of a successful login for the user `id`: the two tokens
      carry `{ id }`. */
  function LoginBody(libs: Libraries, config: Config, id: UserId): (body: Json)
    ensures body.JObj? && body.fields.Keys == {"success", "message", "access_token", "refresh_token"}
    ensures body.fields["success"] == JBool(true) && body.fields["message"] == JStr(LoginSuccessful)
    ensures body.fields["access_token"] == JStr(libs.sign(IdClaim(id), config.jwtSecret, config.jwtExpiresIn))
    ensures body.fields["refresh_token"] == JStr(libs.sign(IdClaim(id), config.jwtRefreshSecret, config.jwtRefreshExpiresIn))
  {
    var tokens := GenerateIdTokens(libs, config, id);
    JObj(map[
      "success" := JBool(true),
      "message" := JStr(LoginSuccessful),
      "access_token" := JStr(tokens.accessToken),
      "refresh_token" := JStr(tokens.refreshToken)])
  }

  /** `login`: the first row with the body's email, then `compare`, then two
      tokens for `{ id }`. An unknown email (404) and a wrong password (401)
      carry the same message. */
  function Login(rows: seq<User>, body: map<string, string>, libs: Libraries, config: Config): (r: Result<Response, Error>)
    ensures r.Success? ==>
      exists u :: u in rows && ("email" in body ==> HasValue(u, "email", body["email"]))
        && "password" in body && "password" in u.data && libs.compare(body["password"], u.data["password"])
        && r.value == Response(200, LoginBody(libs, config, u.id))
    ensures FindFirst(rows, AndColumn(Everything, "email", Lookup(body, "email"))).None? ==>
      r == Failure(Throw(404, InvalidCredentials))
    ensures var found := FindFirst(rows, AndColumn(Everything, "email", Lookup(body, "email")));
      found.Some? && "password" in body && "password" in found.value.data ==>
        r == if libs.compare(body["password"], found.value.data["password"])
             then Success(Response(200, LoginBody(libs, config, found.value.id)))
             else Failure(Throw(401, InvalidCredentials))
    ensures r.Failure? && r.error.Http? ==>
      r.error.exception.message == JStr(InvalidCredentials) && r.error.exception.statusCode in {401, 404}
  {
    var email := Lookup(body, "email");
    var password := Lookup(body, "password");
    match FindFirst(rows, AndColumn(Everything, "email", email))
    case None => Failure(Throw(404, InvalidCredentials))
    case Some(user) =>
      var hashed := Lookup(user.data, "password");
      if password.None? || hashed.None? then Failure(IllegalArguments(password, hashed))
      else if !libs.compare(password.value, hashed.value) then Failure(Throw(401, InvalidCredentials))
      else
        assert "email" in body ==> "email" in AndColumn(Everything, "email", email).columns;
        Success(Response(200, LoginBody(libs, config, user.id)))
  }

  /** Whoever supplies an unknown email and whoever supplies a wrong password
      receive the same message; only the status differs. */
  lemma LoginFailuresLookAlike(rows: seq<User>, nextId: UserId, i: nat, unknown: map<string, string>, guess: string, libs: Libraries, config: Config)
    requires WellFormed(rows, nextId)
    requires "email" in unknown && !Taken(rows, "email", unknown["email"])
    requires i < |rows| && "email" in rows[i].data && "password" in rows[i].data
    requires !libs.compare(guess, rows[i].data["password"])
    ensures Login(rows, unknown, libs, config) == Failure(Throw(404, InvalidCredentials))
    ensures Login(rows, map["email" := rows[i].data["email"], "password" := guess], libs, config)
              == Failure(Throw(401, InvalidCredentials))
  {
    var w := AndColumn(Everything, "email", Some(unknown["email"]));
    forall j | 0 <= j < |rows| ensures !Matches(rows[j], w) {
      assert "email" in w.columns;
    }
    FindByEmail(rows, nextId, i);
  }

  /** The record `regiter` looks for: one row with both the email and the
      username of the body (an absent field adds no condition). */
  function ExistingUserFilter(body: map<string, string>): (w: Where)
    ensures w.id.None?
    ensures forall c :: c in w.columns <==> (c == "email" || c == "username") && c in body
    ensures forall c :: c in w.columns ==> w.columns[c] == body[c]
  {
    AndColumn(AndColumn(Everything, "email", Lookup(body, "email")), "username", Lookup(body, "username"))
  }

  /** `result.map((m) => m.message).join(", ")` wrapped as `{ success: false, message }`. */
  function PolicyError(libs: Libraries, password: string): (e: Error)
    ensures e.Http? && e.exception.statusCode == 400
    ensures e.exception.message == JObj(map["success" := JBool(false), "message" := JStr(PolicyMessage(libs, password))])
  {
    Http(HttpException(400, JObj(map["success" := JBool(false), "message" := JStr(PolicyMessage(libs, password))])))
  }

  /** The checks of `regiter` before the insert: the error it throws, if any. */
  function RegisterCheck(rows: seq<User>, body: map<string, string>, libs: Libraries): (r: Option<Error>)
    ensures FindFirst(rows, ExistingUserFilter(body)).Some? ==> r == Some(Throw(400, UserAlreadyExists))
    ensures FindFirst(rows, ExistingUserFilter(body)).None? && Lookup(body, "password") != Lookup(body, "coniformPassword")
      ==> r == Some(Throw(400, PasswordsDoNotMatch))
    ensures FindFirst(rows, ExistingUserFilter(body)).None? && Lookup(body, "password") == Lookup(body, "coniformPassword")
      && !Acceptable(JsString(Lookup(body, "password")))
      ==> r == Some(PolicyError(libs, JsString(Lookup(body, "password"))))
    ensures r.None? <==>
      FindFirst(rows, ExistingUserFilter(body)).None?
      && Lookup(body, "password") == Lookup(body, "coniformPassword")
      && Acceptable(JsString(Lookup(body, "password")))
  {
    if FindFirst(rows, ExistingUserFilter(body)).Some? then Some(Throw(400, UserAlreadyExists))
    else if Lookup(body, "password") != Lookup(body, "coniformPassword") then Some(Throw(400, PasswordsDoNotMatch))
    else
      var password := JsString(Lookup(body, "password"));
      if |Violations(password)| > 0 then Some(PolicyError(libs, password))
      else None
  }

  /** With both fields present, `regiter` reports a duplicate exactly when one
      row has both the email and the username; a row sharing only one of them
      does not count. */
  lemma {:induction false} RegisterDuplicateNeedsBothFields(rows: seq<User>, body: map<string, string>, libs: Libraries)
    requires "email" in body && "username" in body
    ensures RegisterCheck(rows, body, libs) == Some(Throw(400, UserAlreadyExists)) <==>
      exists i :: 0 <= i < |rows| && HasValue(rows[i], "email", body["email"]) && HasValue(rows[i], "username", body["username"])
  {
    var w := ExistingUserFilter(body);
    assert w.columns == map["email" := body["email"], "username" := body["username"]];
    if FindFirst(rows, w).None? {
      forall i | 0 <= i < |rows| && HasValue(rows[i], "email", body["email"])
        ensures !HasValue(rows[i], "username", body["username"])
      {
        assert !Matches(rows[i], w);
      }
    } else {
      var u := FindFirst(rows, w).value;
      var i :| 0 <= i < |rows| && rows[i] == u;
      assert Matches(u, w);
      assert "email" in w.columns && "username" in w.columns;
      assert HasValue(rows[i], "email", body["email"]) && HasValue(rows[i], "username", body["username"]);
    }
  }

  class AuthController {
    const users: UserTable
    const libs: Libraries

    constructor (users: UserTable, libs: Libraries)
      ensures this.users == users && this.libs == libs
    {
      this.users := users;
      this.libs := libs;
    }

    /** `regiter`: after the checks, the body itself, plaintext password and
        confirmation included, becomes the new row; the table is unchanged on
        every failure, including a unique constraint the checks let through. */
    method Regiter(body: map<string, string>) returns (r: Result<Response, Error>)
      requires users.Valid()
      modifies users
      ensures users.Valid()
      ensures RegisterCheck(old(users.rows), body, libs).Some? ==>
        r == Failure(RegisterCheck(old(users.rows), body, libs).value)
      ensures RegisterCheck(old(users.rows), body, libs).None? && Collides(old(users.rows), body) ==>
        r == Failure(UniqueConstraintFailed)
      ensures r.Failure? ==> users.rows == old(users.rows) && users.nextId == old(users.nextId)
      ensures r.Success? <==> RegisterCheck(old(users.rows), body, libs).None? && !Collides(old(users.rows), body)
      ensures r.Success? ==>
        && r.value == Response(201, JObj(map["success" := JBool(true), "message" := JStr(RegisterSuccessful)]))
        && users.rows == old(users.rows) + [User(old(users.nextId), body)]
    {
      var user := FindFirst(users.rows, ExistingUserFilter(body));
      if user.Some? {
        return Failure(Throw(400, UserAlreadyExists));
      }
      if Lookup(body, "password") != Lookup(body, "coniformPassword") {
        return Failure(Throw(400, PasswordsDoNotMatch));
      }
      var password := JsString(Lookup(body, "password"));
      var result := Violations(password);
      if |result| > 0 {
        return Failure(PolicyError(libs, password));
      }
      var created := users.Create(body);
      if created.Failure? {
        return Failure(created.error);
      }
      return Success(Response(201, JObj(map["success" := JBool(true), "message" := JStr(RegisterSuccessful)])));
    }
  }
}
